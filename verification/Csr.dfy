/** processor_t's CSR writes and privilege stack, on the state the memory unit reads. */
module Csr {
  import opened Powers
  import opened Mstatus
  import opened PageTables
  import opened TlbMachine
  import opened Hart
  import opened MemoryUnit

  datatype Register = FFLAGS | FRM | FCSR | MSTATUS | SSTATUS | SPTBR

  /** The abstract operation a write to one of these registers performs. */
  function OpOf(which: Register, val: Word): CsrOp
    requires which != SPTBR
  {
    match which
    case MSTATUS => WriteMstatus(val)
    case SSTATUS => WriteSstatus(val)
    case _ => UseFp
  }

  class Processor {
    const state: State
    const mmu: Mmu

    ghost predicate Valid()
      reads state
    {
      mmu.state == state && mmu.Valid()
    }

    /** A processor after its reset is released, over a fresh memory unit. */
    constructor (mem: array<Byte>, rv64: bool, ext: bool)
      requires mem.Length % PAGE == 0 && mem.Length < WORD
      ensures Valid() && Sound(mmu.Value()) && mmu.mem == mem && fresh(state) && fresh(mmu)
      ensures state.mstatus == AfterReset() && state.sptbr == 0 && state.fflags == state.frm == 0
      ensures state.rv64 == rv64 && state.ext == ext
      ensures mmu.Entries() == Flushed(mmu.Entries())
    {
      var s := new State(rv64, ext);
      state := s;
      mmu := new Mmu(mem, s);
    }

    /** The CSR_MSTATUS case of set_csr. */
    method SetMstatus(val: Word, ghost op: CsrOp)
      requires Valid() && !op.UseFp? && !op.UseExt? && val == Handed(state.mstatus, op)
      modifies state`mstatus, mmu.tlbInsnTag, mmu.tlbLoadTag, mmu.tlbStoreTag
      ensures Valid()
      ensures state.mstatus == CsrStep(old(state.mstatus), op, state.rv64, state.ext).0
      ensures mmu.Entries() == if CsrStep(old(state.mstatus), op, state.rv64, state.ext).1 then old(Flushed(mmu.Entries())) else old(mmu.Entries())
      ensures old(Sound(mmu.Value())) ==> Sound(mmu.Value())
    {
      hide Write, Flushes, Writable, Merged, SetSd, Dirty, Legal, Sound, RegsOf, CsrStep, FromSstatus, PushValue, PopValue,
        Vm, Prv, Prv1, Prv2, Mprv, Fs, Xs, Sd32, Sd64, Handed, Flushed, Untagged, Coherent, Uniform;
      ghost var port := mmu.Value();
      var s, rv64, ext := state.mstatus, state.rv64, state.ext;
      RootKept(s, rv64, state.sptbr);
      StepIs(s, op, rv64, ext);
      WriteIs(s, val, rv64, ext);
      StepLegal(s, op, rv64, ext);
      StepSound(port, s, op, rv64, ext, state.sptbr);
      if Flushes(s, val) {
        mmu.FlushTlb();
      }
      var t := Merged(s, val, Writable(val, rv64, ext));
      var dirty: Word := if Dirty(t) then 1 else 0;
      state.mstatus := SetSd(t, dirty, rv64);
    }

    /** The macro dirty_fp_state. */
    method DirtyFpState()
      requires Valid()
      modifies state`mstatus
      ensures Valid() && state.mstatus == TouchFp(old(state.mstatus), state.rv64)
      ensures Fs(state.mstatus) == 3 && Xs(state.mstatus) == old(Xs(state.mstatus))
      ensures KeptModes(old(state.mstatus), state.mstatus) && KeptEnables(old(state.mstatus), state.mstatus)
      ensures old(Sound(mmu.Value())) ==> Sound(mmu.Value())
    {
      hide TouchFp, Legal, RegsOf, CsrStep, Sound, Dirty, Vm, Prv, Prv1, Prv2, Mprv, Sd32, Sd64, Fs, Xs, KeptModes, KeptEnables;
      TouchFpFields(state.mstatus, state.rv64);
      var s, rv64, ext := state.mstatus, state.rv64, state.ext;
      RootKept(s, rv64, state.sptbr);
      TouchIs(s, rv64, ext);
      TouchLegal(s, rv64);
      StepSound(mmu.Value(), s, UseFp, rv64, ext, state.sptbr);
      state.mstatus := TouchFp(s, rv64);
    }

    /** set_csr. Every write but the one to sptbr is a step of the privilege machine and
        keeps the TLB sound; the one to sptbr leaves the TLB for software to fence. */
    method SetCsr(which: Register, val: Word)
      requires Valid()
      modifies state, mmu.tlbInsnTag, mmu.tlbLoadTag, mmu.tlbStoreTag
      ensures Valid()
      ensures which != SPTBR ==>
        var t := CsrStep(old(state.mstatus), OpOf(which, val), state.rv64, state.ext);
        && state.mstatus == t.0 && state.sptbr == old(state.sptbr)
        && mmu.Entries() == (if t.1 then old(Flushed(mmu.Entries())) else old(mmu.Entries()))
        && (old(Sound(mmu.Value())) ==> Sound(mmu.Value()))
      ensures which == FFLAGS || which == FRM || which == FCSR ==>
        && Fs(state.mstatus) == 3 && Xs(state.mstatus) == old(Xs(state.mstatus))
        && KeptModes(old(state.mstatus), state.mstatus) && KeptEnables(old(state.mstatus), state.mstatus)
      ensures which == SPTBR ==>
        && state.mstatus == old(state.mstatus) && mmu.Entries() == old(mmu.Entries())
        && state.sptbr == val as nat / PAGE * PAGE % (if state.rv64 then WORD else 0x1_0000_0000)
        && (mmu.Entries() == Flushed(mmu.Entries()) ==> Sound(mmu.Value()))
      ensures state.fflags == match which case FFLAGS | FCSR => val & 0x1F case _ => old(state.fflags)
      ensures state.frm == match which case FRM => val & 0x7 case FCSR => (val & 0xE0) >> 5 case _ => old(state.frm)
    {
      hide TouchFp, Legal, RegsOf, Sound, Write, Flushes, Flushed, FromSstatus, PushValue, PopValue, Fs, Xs, KeptModes, KeptEnables;
      match which
      case FFLAGS =>
        DirtyFpState();
        state.fflags := val & 0x1F;
      case FRM =>
        DirtyFpState();
        state.frm := val & 0x7;
      case FCSR =>
        DirtyFpState();
        state.fflags := val & 0x1F;
        state.frm := (val & 0xE0) >> 5;
      case MSTATUS =>
        SetMstatus(val, WriteMstatus(val));
      case SSTATUS =>
        SetMstatus(FromSstatus(state.mstatus, val), WriteSstatus(val));
      case SPTBR =>
        SetSptbr(val);
    }

    /** The CSR_SPTBR case; it does not flush. */
    method SetSptbr(val: Word)
      requires Valid()
      modifies state`sptbr
      ensures Valid() && state.sptbr == val as nat / PAGE * PAGE % (if state.rv64 then WORD else 0x1_0000_0000)
      ensures mmu.Entries() == Flushed(mmu.Entries()) ==> Sound(mmu.Value())
    {
      hide Legal, RegsOf, Sound, Flushed;
      RootAligned(val as nat);
      state.sptbr := val as nat / PAGE * PAGE % (if state.rv64 then WORD else 0x1_0000_0000);
      if mmu.Entries() == Flushed(mmu.Entries()) { SoundEmpty(mmu); }
    }

    method PushPrivilegeStack()
      requires Valid()
      modifies state`mstatus, mmu.tlbInsnTag, mmu.tlbLoadTag, mmu.tlbStoreTag
      ensures Valid() && state.mstatus == Push(old(state.mstatus), state.rv64, state.ext)
      ensures Stack(state.mstatus) == [TRAPPED] + old(Stack(state.mstatus)[..2])
      ensures old(Sound(mmu.Value())) ==> Sound(mmu.Value())
    {
      hide PushValue, Legal, RegsOf, Sound, Write, Flushes, Flushed, Stack, Uniform;
      PushStack(state.mstatus, state.rv64, state.ext);
      SetMstatus(PushValue(state.mstatus), Trap);
    }

    method PopPrivilegeStack()
      requires Valid()
      modifies state`mstatus, mmu.tlbInsnTag, mmu.tlbLoadTag, mmu.tlbStoreTag
      ensures Valid() && state.mstatus == Pop(old(state.mstatus), state.rv64, state.ext)
      ensures Stack(state.mstatus) == old(Stack(state.mstatus)[1..]) + [BOTTOM]
      ensures old(Sound(mmu.Value())) ==> Sound(mmu.Value())
    {
      hide PopValue, Legal, RegsOf, Sound, Write, Flushes, Flushed, Stack, Uniform;
      PopStack(state.mstatus, state.rv64, state.ext);
      SetMstatus(PopValue(state.mstatus), Return);
    }
  }

  lemma StepIs(s: Word, op: CsrOp, rv64: bool, ext: bool)
    requires !op.UseFp? && !op.UseExt?
    ensures CsrStep(s, op, rv64, ext) == (Write(s, Handed(s, op), rv64, ext), Flushes(s, Handed(s, op)))
  {
    hide Write, Flushes, Handed;
  }

  lemma TouchIs(s: Word, rv64: bool, ext: bool)
    ensures CsrStep(s, UseFp, rv64, ext) == (TouchFp(s, rv64), false)
  {
    hide TouchFp;
  }

  lemma RootAligned(v: nat)
    ensures v / PAGE * PAGE % WORD % PAGE == 0 && v / PAGE * PAGE % 0x1_0000_0000 % PAGE == 0
  {
    PageWord(v / PAGE);
    var n := v / PAGE;
    var h, l := n / 0x10_0000, n % 0x10_0000;
    assert n * PAGE == h * 0x1_0000_0000 + l * PAGE;
    DivModUnique(h, l * PAGE, 0x1_0000_0000);
  }

  lemma WriteIs(s: Word, val: Word, rv64: bool, ext: bool)
    ensures var t := Merged(s, val, Writable(val, rv64, ext));
            Write(s, val, rv64, ext) == SetSd(t, if Dirty(t) then 1 else 0, rv64)
  {
    hide Merged, Writable, SetSd, Dirty;
  }

  lemma SoundEmpty(mmu: Mmu)
    requires mmu.Valid() && mmu.Entries() == Flushed(mmu.Entries())
    ensures Sound(mmu.Value())
  {
    hide Coherent;
    EmptyCoherent(mmu.Value());
  }

  /** A step of the privilege machine keeps a sound TLB sound. */
  lemma StepSound(port: Port, s: Word, op: CsrOp, rv64: bool, ext: bool, sptbr: nat)
    requires Shaped(port) && sptbr % PAGE == 0 && port.regs == RegsOf(s, rv64, sptbr)
    ensures var t := CsrStep(s, op, rv64, ext);
      Sound(port) ==> Sound(Port(port.mem, RegsOf(t.0, rv64, sptbr), if t.1 then Flushed(port.tlb) else port.tlb))
  {
    hide CsrStep, RegsOf, Sound;
    if Sound(port) {
      var t := CsrStep(s, op, rv64, ext);
      RootKept(t.0, rv64, sptbr);
      SwitchAllowed(s, op, rv64, ext, port.mem, sptbr);
      StepRefines(port, Switch(RegsOf(t.0, rv64, sptbr), t.1));
    }
  }
}
