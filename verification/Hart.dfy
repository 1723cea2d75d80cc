/** The privilege state machine of processor_t: what runs of CSR writes, traps and
    returns keep, and what they mean for address translation. */
module Hart {
  import opened Mstatus
  import opened PageTables
  import opened TlbMachine

  function ModeOf(priv: Word): Mode {
    if priv == USER then User else if priv == MACHINE then Machine else Supervisor
  }

  /** The translation scheme of a legal VM field; any other value makes a walk abort. */
  function VmOf(vm: Word): Mapping {
    if vm == 8 then Paging(Sv32) else if vm == 9 then Paging(Sv39) else if vm == 10 then Paging(Sv48) else Bare
  }

  /** The registers translation reads. */
  function RegsOf(s: Word, rv64: bool, sptbr: nat): Regs {
    Regs(rv64, VmOf(Vm(s)), ModeOf(Prv(s)), ModeOf(Prv1(s)), Mprv(s) != 0, sptbr)
  }

  // -------------------------------------------------------------------- operations

  /** What changes mstatus after reset. MRTS is a WriteMstatus. */
  datatype CsrOp = WriteMstatus(val: Word) | WriteSstatus(val: Word) | UseFp | UseExt | Trap | Return

  /** The value an operation hands to set_csr(CSR_MSTATUS), if it does. */
  function Handed(s: Word, op: CsrOp): Word {
    match op
    case WriteMstatus(val) => val
    case WriteSstatus(val) => FromSstatus(s, val)
    case Trap => PushValue(s)
    case Return => PopValue(s)
    case _ => s
  }

  /** The new mstatus, and whether the TLB was flushed. */
  function CsrStep(s: Word, op: CsrOp, rv64: bool, ext: bool): (Word, bool) {
    match op
    case UseFp => (TouchFp(s, rv64), false)
    case UseExt => (TouchExt(s, rv64), false)
    case _ => (Write(s, Handed(s, op), rv64, ext), Flushes(s, Handed(s, op)))
  }

  /** The modes a write accepts are bare mode and the schemes whose page-table entries are
      as wide as the machine's registers. */
  lemma AcceptedModes(rv64: bool, vm: Word)
    ensures ValidVm(rv64, vm) <==>
            vm == 0 || (VmOf(vm).Paging? && PteSize(VmOf(vm).scheme) == if rv64 then 8 else 4)
  {
  }

  /** A scheme's VM number is six more than its levels. */
  lemma ModeNumbers(vm: Word, s: Scheme)
    ensures VmOf(vm) == Paging(s) <==> vm as int == 6 + Levels(s)
  {
  }

  /** Of the four two-bit levels the reserved one is refused, and the others are the three
      modes. */
  lemma LevelsExactly(priv: Word, other: Word)
    ensures priv < 4 ==> (ValidPriv(priv) <==> priv != 2)
    ensures ValidPriv(priv) && ValidPriv(other) ==> (ModeOf(priv) == ModeOf(other) <==> priv == other)
    ensures ValidPriv(priv) ==> (ModeOf(priv) == User <==> priv == 0) && (ModeOf(priv) == Machine <==> priv == 3)
  {
  }

  lemma StepLegal(s: Word, op: CsrOp, rv64: bool, ext: bool)
    requires Legal(s, rv64)
    ensures Legal(CsrStep(s, op, rv64, ext).0, rv64)
  {
    hide Legal, Write, TouchFp, TouchExt;
    TouchLegal(s, rv64);
    WriteLegal(s, Handed(s, op), rv64, ext);
  }

  lemma UnflushedBits(s: Word, val: Word)
    requires !Flushes(s, val)
    ensures Vm(val) == Vm(s) && Prv(val) == Prv(s) && Prv1(val) == Prv1(s) && Mprv(val) == Mprv(s)
  {
  }

  /** Using a unit never flushes; every other step does exactly when the value it writes has
      another VM, PRV, PRV1 or MPRV. */
  lemma StepFlushes(s: Word, op: CsrOp, rv64: bool, ext: bool)
    ensures var v := Handed(s, op);
            CsrStep(s, op, rv64, ext).1 <==> Vm(v) != Vm(s) || Prv(v) != Prv(s) || Prv1(v) != Prv1(s) || Mprv(v) != Mprv(s)
  {
    hide Write, TouchFp, TouchExt, Flushes, FromSstatus, PushValue, PopValue, Vm, Prv, Prv1, Mprv;
    FlushesExactly(s, Handed(s, op));
  }

  /** A step that leaves the TLB alone leaves VM, PRV, PRV1 and MPRV alone. */
  lemma UnflushedStep(s: Word, op: CsrOp, rv64: bool, ext: bool)
    requires !CsrStep(s, op, rv64, ext).1
    ensures var t := CsrStep(s, op, rv64, ext).0; Vm(t) == Vm(s) && Prv(t) == Prv(s) && Prv1(t) == Prv1(s) && Mprv(t) == Mprv(s)
  {
    hide Write, TouchFp, TouchExt, Flushes, Handed, Vm, Prv, Prv1, Mprv;
    if op.UseFp? || op.UseExt? {
      TouchFields(s, rv64);
    } else {
      UnflushedBits(s, Handed(s, op));
      WriteFields(s, Handed(s, op), rv64, ext);
    }
  }

  /** So, as a step of the memory system, every operation is an allowed switch. */
  lemma SwitchAllowed(s: Word, op: CsrOp, rv64: bool, ext: bool, m: seq<Byte>, sptbr: nat)
    requires Paged(m) && |m| < WORD && sptbr % PAGE == 0
    ensures var t := CsrStep(s, op, rv64, ext);
            Allowed(m, RegsOf(s, rv64, sptbr), Switch(RegsOf(t.0, rv64, sptbr), t.1))
  {
    hide CsrStep, Vm, Prv, Prv1, Mprv;
    if !CsrStep(s, op, rv64, ext).1 {
      UnflushedStep(s, op, rv64, ext);
    }
  }

  // -------------------------------------------------------------------------- runs

  function CsrRun(s: Word, ops: seq<CsrOp>, rv64: bool, ext: bool): Word
    decreases |ops|
  {
    if ops == [] then s else CsrRun(CsrStep(s, ops[0], rv64, ext).0, ops[1..], rv64, ext)
  }

  function AnyFlush(s: Word, ops: seq<CsrOp>, rv64: bool, ext: bool): bool
    decreases |ops|
  {
    ops != [] && (CsrStep(s, ops[0], rv64, ext).1 || AnyFlush(CsrStep(s, ops[0], rv64, ext).0, ops[1..], rv64, ext))
  }

  lemma {:induction false} RunLegal(s: Word, ops: seq<CsrOp>, rv64: bool, ext: bool)
    requires Legal(s, rv64)
    ensures Legal(CsrRun(s, ops, rv64, ext), rv64)
    decreases |ops|
  {
    hide Legal, CsrStep;
    if ops != [] {
      StepLegal(s, ops[0], rv64, ext);
      RunLegal(CsrStep(s, ops[0], rv64, ext).0, ops[1..], rv64, ext);
    }
  }

  /** Every run from reset keeps PRV, PRV1 and PRV2 at U, S or M, SD in step with FS
      and XS, and VM at a scheme the walk accepts for the register width. */
  lemma ReachableLegal(ops: seq<CsrOp>, rv64: bool, ext: bool)
    ensures var t := CsrRun(AfterReset(), ops, rv64, ext);
      && {Prv(t), Prv1(t), Prv2(t)} <= {USER, SUPERVISOR, MACHINE}
      && Vm(t) in (if rv64 then {0, 9, 10} else {0, 8})
      && ((if rv64 then Sd64(t) else Sd32(t)) == 1 <==> Dirty(t))
  {
    hide CsrRun, Prv, Prv1, Prv2, Vm, Sd64, Sd32, Dirty;
    ResetLegal(rv64, ext);
    RunLegal(AfterReset(), ops, rv64, ext);
  }

  /** As long as no step of a run flushes the TLB, translation reads the same registers. */
  lemma {:induction false} EpochSteady(s: Word, ops: seq<CsrOp>, rv64: bool, ext: bool, sptbr: nat)
    ensures !AnyFlush(s, ops, rv64, ext) ==> RegsOf(CsrRun(s, ops, rv64, ext), rv64, sptbr) == RegsOf(s, rv64, sptbr)
    decreases |ops|
  {
    hide CsrStep, Vm, Prv, Prv1, Mprv;
    if ops != [] {
      var t := CsrStep(s, ops[0], rv64, ext);
      EpochSteady(t.0, ops[1..], rv64, ext, sptbr);
      if !t.1 {
        UnflushedStep(s, ops[0], rv64, ext);
      }
    }
  }

  // --------------------------------------------------- programs: CSRs and memory

  datatype Act = Csr(csr: CsrOp) | Mem(op: Op)

  /** Memory accesses, fences, and rewritings of the page table followed by a fence. */
  predicate FormedAct(act: Act) {
    act.Csr? || (Formed(act.op) && !act.op.Switch? && (act.op.Remap? ==> act.op.root < WORD))
  }

  /** The program as the memory system sees it. */
  function Seen(s: Word, acts: seq<Act>, rv64: bool, ext: bool, sptbr: nat): seq<Op>
    decreases |acts|
  {
    if acts == [] then []
    else
      match acts[0]
      case Mem(op) => [op] + Seen(s, acts[1..], rv64, ext, if op.Remap? then op.root else sptbr)
      case Csr(csr) =>
        var t := CsrStep(s, csr, rv64, ext);
        [Switch(RegsOf(t.0, rv64, sptbr), t.1)] + Seen(t.0, acts[1..], rv64, ext, sptbr)
  }

  lemma {:induction false} SeenFormed(s: Word, acts: seq<Act>, rv64: bool, ext: bool, sptbr: nat)
    requires sptbr % PAGE == 0 && forall k | 0 <= k < |acts| :: FormedAct(acts[k])
    ensures forall op | op in Seen(s, acts, rv64, ext, sptbr) :: Formed(op)
    decreases |acts|
  {
    hide CsrStep, RegsOf;
    if acts != [] {
      match acts[0]
      case Mem(op) => SeenFormed(s, acts[1..], rv64, ext, if op.Remap? then op.root else sptbr);
      case Csr(csr) =>
        var t := CsrStep(s, csr, rv64, ext);
        assert RegsOf(t.0, rv64, sptbr).root == sptbr by { RootKept(t.0, rv64, sptbr); }
        SeenFormed(t.0, acts[1..], rv64, ext, sptbr);
    }
  }

  lemma RootKept(s: Word, rv64: bool, sptbr: nat)
    ensures RegsOf(s, rv64, sptbr).root == sptbr && forall root: nat :: RegsOf(s, rv64, sptbr).(root := root) == RegsOf(s, rv64, root)
  {
  }

  /** Along the run without a TLB, accesses are made while fetches and data accesses
      translate alike, and stores stay off the page table. */
  ghost predicate Careful(m: seq<Byte>, s: Word, acts: seq<Act>, rv64: bool, ext: bool, sptbr: nat)
    requires Paged(m) && |m| < WORD && sptbr % PAGE == 0 && forall k | 0 <= k < |acts| :: FormedAct(acts[k])
    decreases |acts|
  {
    acts != [] ==>
      var r := RegsOf(s, rv64, sptbr);
      RootKept(s, rv64, sptbr);
      match acts[0]
      case Csr(csr) => Careful(m, CsrStep(s, csr, rv64, ext).0, acts[1..], rv64, ext, sptbr)
      case Mem(op) =>
        assert FormedAct(acts[0]);
        var p := PlainStep(m, r, op);
        PlainShaped(m, r, op);
        && Allowed(m, r, op) && (IsAccess(op) ==> Uniform(r))
        && Careful(p.0, s, acts[1..], rv64, ext, if op.Remap? then op.root else sptbr)
  }

  lemma PlainRegs(m: seq<Byte>, r: Regs, op: Op)
    requires Paged(m) && |m| < WORD && r.root % PAGE == 0 && Formed(op) && !op.Switch?
    ensures PlainStep(m, r, op).1 == if op.Remap? then r.(root := op.root) else r
  {
    hide Translate, MemAfter;
  }

  lemma {:induction false} CarefulDisciplined(m: seq<Byte>, s: Word, acts: seq<Act>, rv64: bool, ext: bool, sptbr: nat)
    requires Paged(m) && |m| < WORD && sptbr % PAGE == 0 && forall k | 0 <= k < |acts| :: FormedAct(acts[k])
    requires Careful(m, s, acts, rv64, ext, sptbr)
    ensures RegsOf(s, rv64, sptbr).root == sptbr && (forall op | op in Seen(s, acts, rv64, ext, sptbr) :: Formed(op))
    ensures Disciplined(m, RegsOf(s, rv64, sptbr), Seen(s, acts, rv64, ext, sptbr))
    decreases |acts|
  {
    hide CsrStep, RegsOf, Allowed, Uniform, PlainStep;
    var r := RegsOf(s, rv64, sptbr);
    var ops := Seen(s, acts, rv64, ext, sptbr);
    RootKept(s, rv64, sptbr);
    SeenFormed(s, acts, rv64, ext, sptbr);
    if acts != [] {
      match acts[0]
      case Csr(csr) =>
        var t := CsrStep(s, csr, rv64, ext);
        SwitchAllowed(s, csr, rv64, ext, m, sptbr);
        SwitchSteps(m, r, ops[0]);
        CarefulDisciplined(m, t.0, acts[1..], rv64, ext, sptbr);
        assert ops[1..] == Seen(t.0, acts[1..], rv64, ext, sptbr);
      case Mem(op) =>
        var root := if op.Remap? then op.root else sptbr;
        PlainShaped(m, r, op);
        PlainRegs(m, r, op);
        CarefulDisciplined(PlainStep(m, r, op).0, s, acts[1..], rv64, ext, root);
        assert ops[1..] == Seen(s, acts[1..], rv64, ext, root);
    }
  }

  lemma SwitchSteps(m: seq<Byte>, r: Regs, op: Op)
    requires Paged(m) && |m| < WORD && r.root % PAGE == 0 && Formed(op) && op.Switch?
    ensures var p := PlainStep(m, r, op); p.0 == m && p.1 == op.regs
  {
  }

  /** The flushes set_csr makes are enough: over every interleaving of CSR writes, traps,
      returns, accesses and fences the TLB is invisible. */
  lemma ProgramRefines(port: Port, s: Word, acts: seq<Act>, rv64: bool, ext: bool, sptbr: nat)
    requires Sound(port) && sptbr % PAGE == 0 && port.regs == RegsOf(s, rv64, sptbr)
    requires (forall k | 0 <= k < |acts| :: FormedAct(acts[k])) && Careful(port.mem, s, acts, rv64, ext, sptbr)
    ensures forall op | op in Seen(s, acts, rv64, ext, sptbr) :: Formed(op)
    ensures var ops := Seen(s, acts, rv64, ext, sptbr);
            FastRun(port, ops) == PlainRun(port.mem, port.regs, ops) && Wild !in FastRun(port, ops)
  {
    hide CsrStep, RegsOf, Seen, Careful, Disciplined;
    CarefulDisciplined(port.mem, s, acts, rv64, ext, sptbr);
    RunRefines(port, Seen(s, acts, rv64, ext, sptbr));
  }

  // ------------------------------------------------- where the conditions can fail

  /** One write after reset makes data accesses translate while fetches do not. */
  lemma NotUniformReached(rv64: bool, ext: bool, sptbr: nat)
    ensures exists val: Word :: !Uniform(RegsOf(CsrRun(AfterReset(), [WriteMstatus(val)], rv64, ext), rv64, sptbr))
  {
    var val: Word := if rv64 then 0x130006 else 0x110006;
    var s := AfterReset();
    MprvWritten(rv64);
    WriteFields(s, val, rv64, ext);
    hide Write, Vm, Prv, Prv1, Mprv;
    assert [WriteMstatus(val)][1..] == [];
    assert CsrRun(s, [WriteMstatus(val)], rv64, ext) == Write(s, val, rv64, ext);
    assert !Uniform(RegsOf(Write(s, val, rv64, ext), rv64, sptbr));
  }

  lemma MprvWritten(rv64: bool)
    ensures var val: Word := if rv64 then 0x130006 else 0x110006;
            Vm(val) == (if rv64 then 9 else 8) && Prv(val) == MACHINE && Prv1(val) == USER && Mprv(val) == 1
  {
  }

  /** On RV32 the first use of the floating-point unit after reset is hidden from sstatus. */
  lemma DirtyUnseen(ext: bool)
    ensures var s := CsrRun(AfterReset(), [UseFp], false, ext); Dirty(s) && Sd32(s) == 1 && Sd32(ReadSstatus(s, false)) == 0
  {
    var s := AfterReset();
    ResetLegal(false, ext);
    TouchFields(s, false);
    TouchLegal(s, false);
    hide TouchFp, Dirty, ReadSstatus, Legal, Sd32;
    assert [UseFp][1..] == [];
    assert CsrRun(s, [UseFp], false, ext) == TouchFp(s, false);
    SstatusSdBit(TouchFp(s, false), false);
    ResetSd();
  }

  lemma ResetSd()
    ensures Sd64(AfterReset()) == 0
  {
  }
}
