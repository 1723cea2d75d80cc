/** mmu_t: the port into memory, with its TLB held in arrays. */
module MemoryUnit {
  import opened Powers
  import opened Bitwise
  import opened Mstatus
  import opened PageTables
  import opened TlbMachine
  import opened Hart

  /** The part of state_t the memory unit and the CSRs share. */
  class State {
    var mstatus: Word
    var sptbr: nat
    var fflags: Word
    var frm: Word
    const rv64: bool
    const ext: bool

    ghost predicate Valid()
      reads this
    {
      sptbr % PAGE == 0 && Legal(mstatus, rv64)
    }

    ghost function Regs(): Regs
      reads this
    {
      RegsOf(mstatus, rv64, sptbr)
    }

    /** state_t::reset, which zeroes the rest. */
    constructor (rv64: bool, ext: bool)
      ensures Valid() && mstatus == AfterReset() && sptbr == 0 && fflags == frm == 0 && this.rv64 == rv64 && this.ext == ext
    {
      mstatus := AfterReset();
      sptbr, fflags, frm := 0, 0, 0;
      this.rv64, this.ext := rv64, ext;
      new;
      ResetLegal(rv64, ext);
    }
  }

  class Mmu {
    const mem: array<Byte>
    const tlbInsnTag: array<nat>
    const tlbLoadTag: array<nat>
    const tlbStoreTag: array<nat>
    const tlbData: array<int>
    const state: State

    ghost predicate Valid()
      reads state
    {
      && mem.Length % PAGE == 0 && mem.Length < WORD
      && tlbInsnTag.Length == tlbLoadTag.Length == tlbStoreTag.Length == tlbData.Length == ENTRIES
      && tlbInsnTag != tlbLoadTag && tlbLoadTag != tlbStoreTag && tlbStoreTag != tlbInsnTag
      && state.Valid()
    }

    ghost function Entries(): Tlb
      reads tlbInsnTag, tlbLoadTag, tlbStoreTag, tlbData
    {
      Tlb(tlbInsnTag[..], tlbLoadTag[..], tlbStoreTag[..], tlbData[..])
    }

    ghost function Value(): Port
      reads state, mem, tlbInsnTag, tlbLoadTag, tlbStoreTag, tlbData
    {
      Port(mem[..], state.Regs(), Entries())
    }

    /** A unit over the given memory, with an empty TLB. */
    constructor (mem: array<Byte>, state: State)
      requires mem.Length % PAGE == 0 && mem.Length < WORD && state.Valid()
      ensures Valid() && Sound(Value()) && this.mem == mem && this.state == state
      ensures fresh(tlbInsnTag) && fresh(tlbLoadTag) && fresh(tlbStoreTag) && fresh(tlbData)
      ensures Value().mem == old(mem[..]) && Entries() == Flushed(Entries())
    {
      this.mem, this.state := mem, state;
      tlbInsnTag := new nat[ENTRIES](i => NOTAG);
      tlbLoadTag := new nat[ENTRIES](i => NOTAG);
      tlbStoreTag := new nat[ENTRIES](i => NOTAG);
      tlbData := new int[ENTRIES](i => 0);
      new;
      assert tlbInsnTag[..] == tlbLoadTag[..] == tlbStoreTag[..] == Untagged();
      EmptyCoherent(Value());
    }

    method FlushTlb()
      requires Valid()
      modifies tlbInsnTag, tlbLoadTag, tlbStoreTag
      ensures Entries() == old(Flushed(Entries())) && Sound(Value())
    {
      forall i | 0 <= i < ENTRIES { tlbInsnTag[i] := NOTAG; }
      forall i | 0 <= i < ENTRIES { tlbLoadTag[i] := NOTAG; }
      forall i | 0 <= i < ENTRIES { tlbStoreTag[i] := NOTAG; }
      assert tlbInsnTag[..] == tlbLoadTag[..] == tlbStoreTag[..] == Untagged();
      EmptyCoherent(Value());
    }

    method RefillTlb(vaddr: nat, paddr: nat, access: Access)
      requires Valid()
      modifies tlbInsnTag, tlbLoadTag, tlbStoreTag, tlbData
      ensures Entries() == old(Refill(Entries(), vaddr, paddr, access))
    {
      var idx := vaddr / PAGE % ENTRIES;
      var expected := vaddr / PAGE;
      if tlbLoadTag[idx] != expected { tlbLoadTag[idx] := NOTAG; }
      if tlbStoreTag[idx] != expected { tlbStoreTag[idx] := NOTAG; }
      if tlbInsnTag[idx] != expected { tlbInsnTag[idx] := NOTAG; }
      if access == Fetch {
        tlbInsnTag[idx] := expected;
      } else if access == Store {
        tlbStoreTag[idx] := expected;
      } else {
        tlbLoadTag[idx] := expected;
      }
      tlbData[idx] := paddr - vaddr;
      ghost var was, now := old(Refill(Entries(), vaddr, paddr, access)), Entries();
      assert now.insn == was.insn && now.load == was.load && now.store == was.store && now.data == was.data;
    }

    /** The loop over the levels; sets R and D in the leaf it uses. */
    method Walk(addr: nat, supervisor: bool, access: Access) returns (r: nat)
      requires Valid() && addr < WORD && VmOf(Vm(state.mstatus)).Paging?
      modifies mem
      ensures var s := VmOf(Vm(state.mstatus)).scheme;
              var w := PageTables.Walk(old(mem[..]), s, state.sptbr, addr / PAGE, supervisor, access);
              && r == (if w.Fault? then NOTAG else FrameOf(w, addr / PAGE))
              && mem[..] == Mark(old(mem[..]), w, access)
    {
      hide Slot, Le, IsTable, Permits, Next, FrameOf, Canonical, VmOf, Vm, Mark, Or, Pow2, WithRD;
      ghost var m := mem[..];
      var s := VmOf(Vm(state.mstatus)).scheme;
      var vpn := addr / PAGE;
      r := NOTAG;
      MarkFault(m, access);
      if Canonical(s, vpn) {
        var base: nat, level: nat := state.sptbr, Levels(s);
        var done := false;
        while level > 0 && !done
          invariant base % PAGE == 0 && mem[..] == m && r == NOTAG
          invariant WalkFrom(m, s, base, vpn, level, supervisor, access) == WalkFrom(m, s, state.sptbr, vpn, Levels(s), supervisor, access)
          invariant done ==> WalkFrom(m, s, base, vpn, level, supervisor, access) == Fault
          decreases level, !done
        {
          var slot := Slot(s, base, vpn, level);
          if slot >= mem.Length {
            done := true;
          } else {
            EntryFits(m, s, base, vpn, level);
            var pte := Le(mem[..], slot, PteSize(s));
            if IsTable(pte) {
              base := Next(pte);
              level := level - 1;
            } else if !Permits(pte, supervisor, access) {
              done := true;
            } else {
              ghost var w := Leaf(slot, pte / 1024, Shift(s, level));
              MarkLeaf(m, w, access);
              mem[slot] := WithRD(mem[slot], access);
              assert mem[..] == m[slot := WithRD(m[slot], access)];
              var shift := Shift(s, level);
              return Framed(pte / 1024, shift, vpn);
            }
          }
        }
      }
    }

    /** The mode an access is translated in; without translation it is machine mode. */
    method AccessMode(access: Access) returns (mode: Word)
      requires Valid()
      ensures (mode == MACHINE <==> ModeFor(state.Regs(), access) == Machine)
      ensures (mode == USER <==> ModeFor(state.Regs(), access) == User)
      ensures mode != MACHINE ==> state.Regs().vm.Paging?
    {
      hide Vm, Prv, Prv1, Mprv, Dirty, Sd32, Sd64;
      mode := Prv(state.mstatus);
      if access != Fetch && Mprv(state.mstatus) != 0 {
        mode := Prv1(state.mstatus);
      }
      if Vm(state.mstatus) == 0 {
        mode := MACHINE;
      }
    }

    /** The walk's abort is unreachable: VM is a scheme it knows whenever it is called. */
    method Translate(addr: nat, access: Access) returns (pa: nat)
      requires Valid() && addr < WORD
      modifies mem
      ensures pa == TlbMachine.Translate(old(mem[..]), state.Regs(), access, addr)
      ensures mem[..] == MemAfter(old(mem[..]), state.Regs(), access, addr / PAGE)
    {
      hide PageTables.Walk, FrameOf, Mark, Legal, ModeFor, Vm, Prv, Prv1, Mprv, VmOf, ModeOf;
      ghost var r := state.Regs();
      var mode := AccessMode(access);
      if mode == MACHINE {
        return addr % (if state.rv64 then WORD else 0x1_0000_0000);
      }
      ghost var w := Lookup(mem[..], r, access, addr / PAGE);
      var frame := Walk(addr, mode != USER, access);
      if w.Leaf? {
        NotAllOnes(w, addr / PAGE);
      }
      pa := if frame == NOTAG then NOTAG else frame + addr % PAGE;
    }

    method LoadSlowPath(addr: nat, n: nat, traced: bool) returns (o: Outcome)
      requires Valid() && Sound(Value()) && Uniform(state.Regs()) && Formed(LoadOp(addr, n, traced)) && addr % n == 0
      requires !Hit(Entries(), Load, addr / PAGE)
      modifies mem, tlbInsnTag, tlbLoadTag, tlbStoreTag, tlbData
      ensures (Value(), o) == FastStep(old(Value()), LoadOp(addr, n, traced))
    {
      hide TlbMachine.Translate, MemAfter, Refill, Sound, Uniform, Legal, Vm, Prv, Prv1, Mprv;
      ghost var s := Value();
      var pa := Translate(addr, Load);
      if pa < mem.Length {
        Aligned(s.mem, s.regs, Load, addr, n);
        o := Data(mem[pa..pa + n]);
        if !traced {
          RefillTlb(addr, pa, Load);
        }
      } else {
        o := Outside(pa);
      }
    }

    method StoreSlowPath(addr: nat, bytes: seq<Byte>, traced: bool) returns (o: Outcome)
      requires Valid() && Sound(Value()) && Uniform(state.Regs()) && Formed(StoreOp(addr, bytes, traced)) && addr % |bytes| == 0
      requires !Hit(Entries(), Store, addr / PAGE)
      modifies mem, tlbInsnTag, tlbLoadTag, tlbStoreTag, tlbData
      ensures (Value(), o) == FastStep(old(Value()), StoreOp(addr, bytes, traced))
    {
      hide TlbMachine.Translate, MemAfter, Refill, Sound, Uniform, Legal, Vm, Prv, Prv1, Mprv, WriteAt;
      ghost var s := Value();
      var pa := Translate(addr, Store);
      if pa < mem.Length {
        Aligned(s.mem, s.regs, Store, addr, |bytes|);
        Copy(pa, bytes);
        o := Done;
        if !traced {
          RefillTlb(addr, pa, Store);
        }
      } else {
        o := Outside(pa);
      }
    }

    /** The memcpy of a store. */
    method Copy(p: nat, bytes: seq<Byte>)
      requires p + |bytes| <= mem.Length
      modifies mem
      ensures WriteAt(old(mem[..]), p, bytes) == (mem[..], Done)
    {
      forall i | 0 <= i < |bytes| { mem[p + i] := bytes[i]; }
      assert mem[..] == old(mem[..p]) + bytes + old(mem[p + |bytes|..]);
    }

    method FetchSlowPath(addr: nat) returns (o: Outcome)
      requires Valid() && Sound(Value()) && Uniform(state.Regs()) && addr < WORD && !Hit(Entries(), Fetch, addr / PAGE)
      modifies mem, tlbInsnTag, tlbLoadTag, tlbStoreTag, tlbData
      ensures (Value(), o) == FastStep(old(Value()), FetchOp(addr))
    {
      hide TlbMachine.Translate, MemAfter, Refill, Sound, Uniform, Legal, Vm, Prv, Prv1, Mprv;
      var pa := Translate(addr, Fetch);
      if pa < mem.Length {
        RefillTlb(addr, pa, Fetch);
        o := At(pa);
      } else {
        o := Outside(pa);
      }
    }

    /** load_func: a tag hit reads through the shared offset. */
    method LoadBytes(addr: nat, n: nat, traced: bool) returns (o: Outcome)
      requires Valid() && Sound(Value()) && Uniform(state.Regs()) && Formed(LoadOp(addr, n, traced))
      modifies mem, tlbInsnTag, tlbLoadTag, tlbStoreTag, tlbData
      ensures (Value(), o) == FastStep(old(Value()), LoadOp(addr, n, traced)) && Sound(Value())
      ensures var p := PlainStep(old(mem[..]), state.Regs(), LoadOp(addr, n, traced)); o == p.2 && mem[..] == p.0
    {
      ghost var s, op := Value(), LoadOp(addr, n, traced);
      StepGood(s, op);
      hide Sound, Allowed, FastStep, PlainStep, TlbMachine.Translate, MemAfter, Refill, Uniform, Legal, RegsOf, Vm, Prv, Prv1, Mprv;
      LoadFast(s, addr, n, traced);
      if addr % n != 0 {
        return Misaligned;
      }
      var vpn := addr / PAGE;
      if tlbLoadTag[vpn % ENTRIES] == vpn {
        var p := tlbData[vpn % ENTRIES] + addr;
        o := Data(mem[p..p + n]);
      } else {
        o := LoadSlowPath(addr, n, traced);
      }
    }

    /** store_func. */
    method StoreBytes(addr: nat, bytes: seq<Byte>, traced: bool) returns (o: Outcome)
      requires Valid() && Sound(Value()) && Uniform(state.Regs()) && Formed(StoreOp(addr, bytes, traced))
      modifies mem, tlbInsnTag, tlbLoadTag, tlbStoreTag, tlbData
      ensures (Value(), o) == FastStep(old(Value()), StoreOp(addr, bytes, traced))
      ensures old(Allowed(mem[..], state.Regs(), StoreOp(addr, bytes, traced))) ==> Sound(Value())
      ensures var p := PlainStep(old(mem[..]), state.Regs(), StoreOp(addr, bytes, traced)); o == p.2 && mem[..] == p.0
    {
      ghost var s, op := Value(), StoreOp(addr, bytes, traced);
      StepGood(s, op);
      hide Sound, Allowed, FastStep, PlainStep, TlbMachine.Translate, MemAfter, Refill, Uniform, Legal, RegsOf, Vm, Prv, Prv1, Mprv, WriteAt;
      StoreFast(s, addr, bytes, traced);
      if addr % |bytes| != 0 {
        return Misaligned;
      }
      var vpn := addr / PAGE;
      if tlbStoreTag[vpn % ENTRIES] == vpn {
        WildOutside(s.mem, s.tlb.data[vpn % ENTRIES] + addr, bytes);
        Copy(tlbData[vpn % ENTRIES] + addr, bytes);
        o := Done;
      } else {
        o := StoreSlowPath(addr, bytes, traced);
      }
    }

    /** translate_insn_addr: where the instruction bytes at addr are. */
    method TranslateInsnAddr(addr: nat) returns (o: Outcome)
      requires Valid() && Sound(Value()) && Uniform(state.Regs()) && addr < WORD
      modifies mem, tlbInsnTag, tlbLoadTag, tlbStoreTag, tlbData
      ensures (Value(), o) == FastStep(old(Value()), FetchOp(addr)) && Sound(Value())
      ensures var p := PlainStep(old(mem[..]), state.Regs(), FetchOp(addr)); o == p.2 && mem[..] == p.0
    {
      ghost var s := Value();
      FetchGood(s, addr);
      hide Sound, Shaped, Formed, Hit, FastStep, PlainStep, TlbMachine.Translate, MemAfter, Refill, Uniform, Legal, RegsOf, Vm, Prv, Prv1, Mprv;
      var vpn := addr / PAGE;
      var idx := vpn % ENTRIES;
      if tlbInsnTag[idx] == vpn {
        assert s.tlb.insn[idx] == vpn && s.tlb.data[idx] == tlbData[idx];
        o := At(tlbData[idx] + addr);
      } else {
        o := FetchSlowPath(addr);
      }
    }
  }

  /** What the fast paths rely on: the TLB answers as walking would, inside memory. */
  lemma StepGood(s: Port, op: Op)
    requires Sound(s) && Formed(op) && IsAccess(op) && Uniform(s.regs)
    ensures var f := FastStep(s, op); var p := PlainStep(s.mem, s.regs, op);
            f.1 == p.2 && f.0.mem == p.0 && f.1 != Wild && (Allowed(s.mem, s.regs, op) ==> Sound(f.0))
  {
    hide Translate, MemAfter, Refill, Uniform, Coherent, Clear, PlainStep, FastStep;
    StepRefines(s, op);
    NeverWild(s.mem, s.regs, op);
  }

  /** A load without the slow path. */
  lemma LoadFast(s: Port, addr: nat, n: nat, traced: bool)
    requires Shaped(s) && Formed(LoadOp(addr, n, traced))
    ensures addr % n != 0 ==> FastStep(s, LoadOp(addr, n, traced)) == (s, Misaligned)
    ensures addr % n == 0 && Hit(s.tlb, Load, addr / PAGE) ==>
              FastStep(s, LoadOp(addr, n, traced)) == (s, ReadAt(s.mem, s.tlb.data[addr / PAGE % ENTRIES] + addr, n))
  {
  }

  lemma StoreFast(s: Port, addr: nat, bytes: seq<Byte>, traced: bool)
    requires Shaped(s) && Formed(StoreOp(addr, bytes, traced))
    ensures addr % |bytes| != 0 ==> FastStep(s, StoreOp(addr, bytes, traced)) == (s, Misaligned)
    ensures addr % |bytes| == 0 && Hit(s.tlb, Store, addr / PAGE) ==>
              var w := WriteAt(s.mem, s.tlb.data[addr / PAGE % ENTRIES] + addr, bytes);
              FastStep(s, StoreOp(addr, bytes, traced)) == (s.(mem := w.0), w.1)
  {
  }

  lemma FetchFast(s: Port, addr: nat)
    requires Shaped(s) && Formed(FetchOp(addr))
    ensures Hit(s.tlb, Fetch, addr / PAGE) && FastStep(s, FetchOp(addr)).1 != Wild ==>
              var p := s.tlb.data[addr / PAGE % ENTRIES] + addr; p >= 0 && FastStep(s, FetchOp(addr)) == (s, At(p))
  {
  }

  lemma FetchGood(s: Port, addr: nat)
    requires Sound(s) && Uniform(s.regs) && addr < WORD
    ensures Shaped(s) && Formed(FetchOp(addr))
    ensures var f := FastStep(s, FetchOp(addr)); var p := PlainStep(s.mem, s.regs, FetchOp(addr));
            f.1 == p.2 && f.0.mem == p.0 && Sound(f.0)
    ensures Hit(s.tlb, Fetch, addr / PAGE) <==> s.tlb.insn[addr / PAGE % ENTRIES] == addr / PAGE
    ensures Hit(s.tlb, Fetch, addr / PAGE) ==>
              var p := s.tlb.data[addr / PAGE % ENTRIES] + addr; p >= 0 && FastStep(s, FetchOp(addr)) == (s, At(p))
  {
    StepGood(s, FetchOp(addr));
    hide Coherent, Uniform, PlainStep, FastStep;
    FetchFast(s, addr);
  }

  lemma WildOutside(m: seq<Byte>, p: int, bytes: seq<Byte>)
    ensures WriteAt(m, p, bytes).1 != Wild ==> 0 <= p && p + |bytes| <= |m|
  {
  }

  /** A frame is page-aligned, so it is not the walk's failure value. */
  lemma NotAllOnes(w: Walked, vpn: nat)
    requires w.Leaf?
    ensures FrameOf(w, vpn) != NOTAG
  {
  }

  function Framed(ppn: nat, shift: nat, vpn: nat): (p: nat)
    ensures p == FrameOf(Leaf(0, ppn, shift), vpn)
  {
    Or(ppn, vpn % Pow2(shift)) * PAGE % WORD
  }

  lemma MarkFault(m: seq<Byte>, access: Access)
    ensures Mark(m, Fault, access) == m
  {
  }

  lemma MarkLeaf(m: seq<Byte>, w: Walked, access: Access)
    requires w.Leaf? && w.slot < |m|
    ensures Mark(m, w, access) == m[w.slot := WithRD(m[w.slot], access)]
    ensures forall vpn: nat :: FrameOf(w, vpn) == FrameOf(Leaf(0, w.ppn, w.shift), vpn)
  {
  }
}
