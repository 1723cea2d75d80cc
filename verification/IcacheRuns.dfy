/** Runs of the instruction cache: every entry holds the instruction its tag addresses,
    decoded, whichever slot it sits in. */
module IcacheRuns {
  import opened PageTables
  import opened TlbMachine
  import opened Icache
  import opened DecodeList
  import Patterns
  import Decoder

  /** The instruction table as build_opcode_map sorted it, and the register width. */
  datatype Decoding = Decoding(table: seq<Desc>, xlen64: bool)

  ghost predicate Sane(d: Decoding) { Total(d.table) && Sorted(d.table) && Compatible(d.table) }

  datatype Entry = Entry(tag: nat, insn: nat, func: Handler)

  /** The port, the cache, and the words decoded so far, which fix the decoder's state. */
  datatype Core = Core(port: Port, icache: seq<Entry>, words: seq<Patterns.Bits>)

  datatype Answer = Faulted | Fetched(insn: nat, func: Handler)

  ghost predicate WellShaped(c: Core) { Shaped(c.port) && |c.icache| == ICACHE_ENTRIES }

  function WordOf(bits: nat): Patterns.Bits
    requires bits < WORD
  {
    bits as Patterns.Bits
  }

  /** mmu_t::refill_icache into the given slot. */
  ghost function Refill(c: Core, d: Decoding, addr: nat, slot: nat, traced: bool): (r: (Core, Answer))
    requires WellShaped(c) && Total(d.table) && addr < WORD && slot < ICACHE_ENTRIES
    ensures |r.0.icache| == ICACHE_ENTRIES
  {
    var a := Assemble(c.port, addr);
    if a.1.Trap? then (c.(port := a.0), Faulted)
    else
      var w := WordOf(a.1.bits);
      var func := Decoder.Decoded(d.table, c.words, w, d.xlen64);
      var entry := Entry(if traced then NOENTRY else addr, a.1.bits, func);
      (Core(a.0, c.icache[slot := entry], c.words + [w]), Fetched(a.1.bits, func))
  }

  /** mmu_t::access_icache. */
  ghost function Access(c: Core, d: Decoding, addr: nat, traced: bool): (r: (Core, Answer))
    requires WellShaped(c) && Total(d.table) && addr < WORD
    ensures |r.0.icache| == ICACHE_ENTRIES
  {
    var entry := c.icache[IcacheIndex(addr)];
    if entry.tag == addr then (c, Fetched(entry.insn, entry.func))
    else Refill(c, d, addr, IcacheIndex(addr), traced)
  }

  /** The handler of the fetched bits is the decoder's answer at some moment since then,
      when the first n words had been decoded. */
  ghost predicate Decodes(d: Decoding, since: nat, words: seq<Patterns.Bits>, insn: nat, func: Handler)
    requires Total(d.table)
  {
    insn < WORD && exists n :: since <= n <= |words| && Answers(d, words, n, insn, func)
  }

  /** What n words into the run a word decodes to: what a linear search of the sorted
      table finds, or for word 1 illegal, as long as the seed passes for it. */
  ghost predicate Answers(d: Decoding, words: seq<Patterns.Bits>, n: nat, insn: nat, func: Handler)
    requires Total(d.table) && n <= |words| && insn < WORD
  {
    func == Decoder.HandlerAfter(d.table, words[..n], WordOf(insn), d.xlen64)
  }

  /** The answer to a fetch at addr in terms of page table, memory and the words decoded. */
  ghost predicate Right(m: seq<Byte>, r: Regs, d: Decoding, since: nat, words: seq<Patterns.Bits>, addr: nat, answer: Answer)
    requires Paged(m) && r.root % PAGE == 0 && Total(d.table)
  {
    match PlainInsn(m, r, addr)
    case Trap => answer == Faulted
    case Bits(bits) => answer.Fetched? && answer.insn == bits && Decodes(d, since, words, bits, answer.func)
  }

  ghost predicate EntryOk(m: seq<Byte>, r: Regs, d: Decoding, since: nat, words: seq<Patterns.Bits>, code: iset<nat>, e: Entry)
    requires Paged(m) && r.root % PAGE == 0 && Total(d.table)
  {
    e.tag != NOENTRY ==>
      e.tag < WORD && e.tag % 2 == 0 && InCode(m, r, e.tag, code) && Right(m, r, d, since, words, e.tag, Fetched(e.insn, e.func))
  }

  /** The invariant. */
  ghost predicate Coherent(c: Core, d: Decoding, since: nat, code: iset<nat>) {
    && Ready(c.port, code) && WellShaped(c) && Sane(d) && since <= |c.words|
    && forall k | 0 <= k < ICACHE_ENTRIES :: EntryOk(c.port.mem, c.port.regs, d, since, c.words, code, c.icache[k])
  }

  lemma SteadyPlain(m: seq<Byte>, m': seq<Byte>, r: Regs, addr: nat, code: iset<nat>)
    requires Paged(m) && |m| < WORD && r.root % PAGE == 0 && Steady(m, m', r, code) && InCode(m, r, addr, code) && addr % 2 == 0
    ensures InCode(m', r, addr, code) && PlainInsn(m', r, addr) == PlainInsn(m, r, addr)
  {
    hide Translate, Apart, SignExtended, ReadHalf;
    var q0 := HalfAddr(m, r, addr, 0);
    assert HalfAddr(m', r, addr, 0) == q0;
    if q0 < |m| {
      assert 0 < Length(ReadHalf(m, q0)) / 2;
      SameHalf(m, m', r, addr, 0, code);
      var n := Length(ReadHalf(m, q0)) / 2;
      forall k: nat | k < n ensures HalfAddr(m', r, addr, k) == HalfAddr(m, r, addr, k)
        && (HalfAddr(m, r, addr, k) < |m| ==> ReadHalf(m', HalfAddr(m, r, addr, k)) == ReadHalf(m, HalfAddr(m, r, addr, k)))
      {
        assert HalfIn(m, HalfAddr(m, r, addr, k), code);
        SameHalf(m, m', r, addr, k, code);
      }
      if !(exists k | 0 <= k < n :: HalfAddr(m, r, addr, k) >= |m|) {
        assert seq(n, k requires 0 <= k < n => ReadHalf(m', HalfAddr(m', r, addr, k)))
            == seq(n, k requires 0 <= k < n => ReadHalf(m, HalfAddr(m, r, addr, k)));
      }
    }
  }

  lemma SameHalf(m: seq<Byte>, m': seq<Byte>, r: Regs, addr: nat, k: nat, code: iset<nat>)
    requires Paged(m) && |m| < WORD && r.root % PAGE == 0 && Steady(m, m', r, code) && addr % 2 == 0
    requires HalfIn(m, HalfAddr(m, r, addr, k), code)
    ensures HalfAddr(m', r, addr, k) == HalfAddr(m, r, addr, k)
    ensures var q := HalfAddr(m, r, addr, k); q < |m| ==> ReadHalf(m', q) == ReadHalf(m, q)
  {
    hide Translate, Apart;
    var a := (addr + 2 * k) % WORD;
    EvenStep(addr, k);
    if HalfAddr(m, r, addr, k) < |m| {
      Aligned(m, r, Fetch, a, 2);
    }
  }

  lemma SteadyEntries(c: Core, d: Decoding, since: nat, port: Port, code: iset<nat>)
    requires Coherent(c, d, since, code) && Ready(port, code) && port.regs == c.port.regs && Steady(c.port.mem, port.mem, port.regs, code)
    ensures Coherent(c.(port := port), d, since, code)
  {
    hide Ready, Steady, InCode, PlainInsn, Sane, Decodes;
    ReadyIs(c.port, code);
    ReadyIs(port, code);
    assert Total(d.table) by { SaneTotal(d); }
    var m, r := c.port.mem, c.port.regs;
    forall k | 0 <= k < ICACHE_ENTRIES ensures EntryOk(port.mem, r, d, since, c.words, code, c.icache[k]) {
      var e := c.icache[k];
      assert EntryOk(m, r, d, since, c.words, code, e);
      if e.tag != NOENTRY {
        SteadyPlain(m, port.mem, r, e.tag, code);
      }
    }
  }

  lemma CoherentParts(c: Core, d: Decoding, since: nat, code: iset<nat>)
    requires Coherent(c, d, since, code)
    ensures Ready(c.port, code) && WellShaped(c) && Sane(d) && Total(d.table) && since <= |c.words|
  {
    hide Ready, EntryOk, Sorted, Compatible;
  }

  lemma AgreesParts(m: seq<Byte>, s: Port, addr: nat, code: iset<nat>)
    requires Shaped(s) && Paged(m) && addr < WORD && Agrees(m, s, addr, code)
    ensures var f := Assemble(s, addr);
      f.1 == PlainInsn(m, s.regs, addr) && f.0.regs == s.regs && Steady(m, f.0.mem, s.regs, code) && Ready(f.0, code)
  {
    hide Assemble, PlainInsn, Steady, Ready;
  }

  lemma SaneTotal(d: Decoding)
    requires Sane(d)
    ensures Total(d.table)
  {
  }

  /** The state and answer f a fetch at addr leads to from c: right, and coherent again. */
  ghost predicate Good(c: Core, d: Decoding, since: nat, addr: nat, code: iset<nat>, f: (Core, Answer))
    requires Shaped(c.port) && Total(d.table)
  {
    && Right(c.port.mem, c.port.regs, d, since, f.0.words, addr, f.1) && c.words <= f.0.words && Coherent(f.0, d, since, code)
    && f.0.port.regs == c.port.regs && Steady(c.port.mem, f.0.port.mem, c.port.regs, code)
  }

  /** A refill gives the right answer and keeps the cache coherent, into any slot. */
  lemma RefillRight(c: Core, d: Decoding, since: nat, addr: nat, slot: nat, traced: bool, code: iset<nat>)
    requires Coherent(c, d, since, code) && addr < WORD && addr % 2 == 0 && slot < ICACHE_ENTRIES
    requires InCode(c.port.mem, c.port.regs, addr, code)
    ensures Total(d.table) && Good(c, d, since, addr, code, Refill(c, d, addr, slot, traced))
    ensures var a := Refill(c, d, addr, slot, traced).1;
            a.Fetched? ==> a.insn < WORD && Answers(d, c.words, |c.words|, a.insn, a.func)
  {
    hide Ready, Steady, InCode, PlainInsn, Assemble, EntryOk, Sane, Total, Decodes, Answers, Decoder.Decoded, Coherent, Agrees, Good, WordOf;
    CoherentParts(c, d, since, code);
    AssembleCorrect(c.port, addr, code);
    AgreesParts(c.port.mem, c.port, addr, code);
    var a := Assemble(c.port, addr);
    SteadyEntries(c, d, since, a.0, code);
    if a.1.Trap? {
      TrapGood(c, d, since, addr, code, a.0);
    } else {
      var w := WordOf(a.1.bits);
      DecodesRight(c, d, since, a.1.bits, w);
      FillGood(c, d, since, addr, slot, traced, code, a.0, a.1.bits, w, Decoder.Decoded(d.table, c.words, w, d.xlen64));
    }
  }

  lemma TrapGood(c: Core, d: Decoding, since: nat, addr: nat, code: iset<nat>, port: Port)
    requires Shaped(c.port) && Total(d.table) && Coherent(c.(port := port), d, since, code)
    requires PlainInsn(c.port.mem, c.port.regs, addr) == Trap && port.regs == c.port.regs && Steady(c.port.mem, port.mem, port.regs, code)
    ensures Good(c, d, since, addr, code, (c.(port := port), Faulted))
  {
    hide Steady, PlainInsn, Total, Coherent;
  }

  lemma FillGood(c: Core, d: Decoding, since: nat, addr: nat, slot: nat, traced: bool, code: iset<nat>, port: Port, bits: nat, w: Patterns.Bits, func: Handler)
    requires Ready(c.port, code) && Sane(d) && Total(d.table) && since <= |c.words| && Coherent(c.(port := port), d, since, code)
    requires addr < WORD && addr % 2 == 0 && slot < ICACHE_ENTRIES && InCode(c.port.mem, c.port.regs, addr, code) && |c.icache| == ICACHE_ENTRIES
    requires PlainInsn(c.port.mem, c.port.regs, addr) == Bits(bits) && port.regs == c.port.regs && Steady(c.port.mem, port.mem, port.regs, code)
    requires bits < WORD && w == WordOf(bits) && func == Decoder.Decoded(d.table, c.words, w, d.xlen64)
    ensures Good(c, d, since, addr, code, (Core(port, c.icache[slot := Entry(if traced then NOENTRY else addr, bits, func)], c.words + [w]), Fetched(bits, func)))
  {
    hide Ready, Steady, PlainInsn, Total, Coherent, InCode, Sane, Decodes, Decoder.Decoded, WordOf;
    ReadyIs(c.port, code);
    DecodesRight(c, d, since, bits, w);
    SteadyPlain(c.port.mem, port.mem, port.regs, addr, code);
    Placed(c.(port := port), d, since, code, addr, slot, bits, w, func, traced);
  }

  /** Storing a right entry, or an untagged one, in any slot. */
  lemma Placed(c: Core, d: Decoding, since: nat, code: iset<nat>, addr: nat, slot: nat, bits: nat, w: Patterns.Bits, func: Handler, traced: bool)
    requires Coherent(c, d, since, code) && addr < WORD && addr % 2 == 0 && slot < ICACHE_ENTRIES && InCode(c.port.mem, c.port.regs, addr, code)
    requires Total(d.table) && PlainInsn(c.port.mem, c.port.regs, addr) == Bits(bits) && Decodes(d, since, c.words + [w], bits, func)
    ensures Coherent(Core(c.port, c.icache[slot := Entry(if traced then NOENTRY else addr, bits, func)], c.words + [w]), d, since, code)
  {
    hide Ready, Steady, InCode, PlainInsn, Sane, Total, Decodes;
    ReadyIs(c.port, code);
    forall k | 0 <= k < ICACHE_ENTRIES
      ensures EntryOk(c.port.mem, c.port.regs, d, since, c.words + [w], code, c.icache[k])
    {
      EntryLater(c.port.mem, c.port.regs, d, since, c.words, c.words + [w], code, c.icache[k]);
    }
  }

  lemma DecodesRight(c: Core, d: Decoding, since: nat, bits: nat, w: Patterns.Bits)
    requires Sane(d) && since <= |c.words| && bits < WORD && w == WordOf(bits)
    ensures Total(d.table) && Answers(d, c.words, |c.words|, bits, Decoder.Decoded(d.table, c.words, w, d.xlen64))
    ensures Decodes(d, since, c.words + [w], bits, Decoder.Decoded(d.table, c.words, w, d.xlen64))
  {
    hide Total, Sorted, Compatible, Decoder.Decoded, Decoder.HandlerAfter, WordOf;
    Decoder.DecoderRefinesLinearSearch(d.table, d.xlen64, c.words, w);
    assert c.words[..|c.words|] == c.words == (c.words + [w])[..|c.words|];
    assert Answers(d, c.words + [w], |c.words|, bits, Decoder.Decoded(d.table, c.words, w, d.xlen64));
  }

  /** An answer once given stays one that was given. */
  lemma DecodesLater(d: Decoding, since: nat, words: seq<Patterns.Bits>, more: seq<Patterns.Bits>, insn: nat, func: Handler)
    requires Total(d.table) && Decodes(d, since, words, insn, func) && words <= more
    ensures Decodes(d, since, more, insn, func)
  {
    hide Total, Decoder.HandlerAfter, WordOf;
    var n :| since <= n <= |words| && Answers(d, words, n, insn, func);
    assert more[..n] == words[..n];
    assert Answers(d, more, n, insn, func);
  }

  lemma EntryLater(m: seq<Byte>, r: Regs, d: Decoding, since: nat, words: seq<Patterns.Bits>, more: seq<Patterns.Bits>, code: iset<nat>, e: Entry)
    requires Paged(m) && r.root % PAGE == 0 && Total(d.table) && EntryOk(m, r, d, since, words, code, e) && words <= more
    ensures EntryOk(m, r, d, since, more, code, e)
  {
    hide Total, InCode, PlainInsn, Decodes;
    if e.tag != NOENTRY && PlainInsn(m, r, e.tag).Bits? {
      DecodesLater(d, since, words, more, e.insn, e.func);
    }
  }

  /** access_icache: a hit is as good as a refill. */
  lemma AccessRight(c: Core, d: Decoding, since: nat, addr: nat, traced: bool, code: iset<nat>)
    requires Coherent(c, d, since, code) && addr < WORD && addr % 2 == 0 && InCode(c.port.mem, c.port.regs, addr, code)
    ensures Total(d.table) && Good(c, d, since, addr, code, Access(c, d, addr, traced))
  {
    hide Ready, InCode, Right, Steady, Sane, Total, Refill, Decodes, EntryOk;
    CoherentParts(c, d, since, code);
    var e := c.icache[IcacheIndex(addr)];
    if e.tag == addr {
      ReadyIs(c.port, code);
      assert EntryOk(c.port.mem, c.port.regs, d, since, c.words, code, e);
      HitRight(c.port.mem, c.port.regs, d, since, c.words, code, e);
    } else {
      RefillRight(c, d, since, addr, IcacheIndex(addr), traced, code);
    }
  }

  lemma HitRight(m: seq<Byte>, r: Regs, d: Decoding, since: nat, words: seq<Patterns.Bits>, code: iset<nat>, e: Entry)
    requires Paged(m) && r.root % PAGE == 0 && Total(d.table) && EntryOk(m, r, d, since, words, code, e) && e.tag % 2 == 0
    ensures Right(m, r, d, since, words, e.tag, Fetched(e.insn, e.func))
  {
    hide Right, InCode;
  }

  // ------------------------------------------------------------------ data accesses

  /** A store's bytes are not code. */
  ghost predicate OffCode(m: seq<Byte>, r: Regs, op: Op, code: iset<nat>)
    requires Paged(m) && r.root % PAGE == 0
  {
    op.StoreOp? ==> OffSlot(code, Translate(m, r, Store, op.addr), |op.bytes|)
  }

  lemma WriteSteady(m: seq<Byte>, m': seq<Byte>, r: Regs, a: nat, n: nat, code: iset<nat>)
    requires Paged(m) && r.root % PAGE == 0 && |m'| == |m| && Apart(m, r, code)
    requires r.vm.Paging? ==> Clear(m, r.vm.scheme, r.root, a, n)
    requires (forall i | 0 <= i < |m| && !(a <= i < a + n) :: m[i] == m'[i]) && OffSlot(code, a, n)
    ensures Steady(m, m', r, code)
  {
    hide Walk, Visits, Clear, FrameOf;
    forall addr: nat | addr < WORD ensures Translate(m', r, Fetch, addr) == Translate(m, r, Fetch, addr) {
      if ModeFor(r, Fetch) != Machine {
        WalkUntouched(m, m', r.vm.scheme, r.root, a, n, addr / PAGE, ModeFor(r, Fetch) != User, Fetch);
      }
    }
    if r.vm.Paging? {
      ApartWritten(m, m', r, a, n, code);
    }
  }

  lemma ApartWritten(m: seq<Byte>, m': seq<Byte>, r: Regs, a: nat, n: nat, code: iset<nat>)
    requires Paged(m) && r.root % PAGE == 0 && |m'| == |m| && Apart(m, r, code) && r.vm.Paging?
    requires Clear(m, r.vm.scheme, r.root, a, n) && forall i | 0 <= i < |m| && !(a <= i < a + n) :: m[i] == m'[i]
    ensures Apart(m', r, code)
  {
    hide Visits, OffSlot;
    var s := r.vm.scheme;
    forall vpn: nat, slot: nat | Visits(m', s, r.root, vpn, Levels(s), slot) ensures OffSlot(code, slot, PteSize(s)) {
      assert SameEntries(m, m', s, r.root, vpn, Levels(s));
      VisitsUntouched(m, m', s, r.root, vpn, Levels(s), slot);
    }
  }

  lemma PlainSteady(m: seq<Byte>, r: Regs, op: Op, code: iset<nat>)
    requires Paged(m) && |m| < WORD && r.root % PAGE == 0 && Formed(op) && (op.LoadOp? || op.StoreOp?)
    requires Apart(m, r, code) && Allowed(m, r, op) && OffCode(m, r, op, code)
    ensures Steady(m, PlainStep(m, r, op).0, r, code) && PlainStep(m, r, op).1 == r
  {
    hide Translate, MemAfter, Apart, Clear, WriteAt, Steady, OffSlot;
    NoWalkSteady(m, r, code);
    if op.LoadOp? {
      WalkSteady(m, r, Load, op.addr / PAGE, code);
    } else if op.addr % |op.bytes| == 0 {
      var pa := Translate(m, r, Store, op.addr);
      var m1 := MemAfter(m, r, Store, op.addr / PAGE);
      WalkSteady(m, r, Store, op.addr / PAGE, code);
      ApartAfter(m, r, Store, op.addr / PAGE, code);
      if pa < |m1| {
        if r.vm.Paging? {
          ClearAfterWalk(m, r, Store, op.addr / PAGE, pa, |op.bytes|);
        }
        WriteElsewhere(m1, pa, op.bytes);
        WriteSteady(m1, WriteAt(m1, pa, op.bytes).0, r, pa, |op.bytes|, code);
        SteadyTrans(m, m1, WriteAt(m1, pa, op.bytes).0, r, code);
      }
    }
  }

  lemma DataKeeps(c: Core, d: Decoding, since: nat, op: Op, code: iset<nat>)
    requires Coherent(c, d, since, code) && Shaped(c.port) && Formed(op) && (op.LoadOp? || op.StoreOp?)
    requires Allowed(c.port.mem, c.port.regs, op) && OffCode(c.port.mem, c.port.regs, op, code)
    ensures var p := FastStep(c.port, op).0;
            Coherent(c.(port := p), d, since, code) && p.regs == c.port.regs && Steady(c.port.mem, p.mem, p.regs, code)
  {
    hide Allowed, OffCode, Steady, EntryOk, TlbMachine.Coherent, Uniform, Apart, FastStep, PlainStep, Sane;
    StepRefines(c.port, op);
    PlainSteady(c.port.mem, c.port.regs, op, code);
    var p := FastStep(c.port, op).0;
    SteadyApart(c.port.mem, p.mem, p.regs, code);
    SteadyEntries(c, d, since, p, code);
  }

  lemma SteadyApart(m: seq<Byte>, m': seq<Byte>, r: Regs, code: iset<nat>)
    requires Paged(m) && r.root % PAGE == 0 && Steady(m, m', r, code)
    ensures |m'| == |m| && Apart(m', r, code)
  {
    hide Apart, Translate;
  }

  // -------------------------------------------------------------------------- runs

  datatype Act =
    | Step(addr: nat, traced: bool)
    /** execute.cc fills the next slot when the branch there was not taken. */
    | RefillAt(addr: nat, slot: nat, traced: bool)
    | Data(op: Op)
    | FlushInsns
    | FlushAll

  function NoEntries(): (s: seq<Entry>)
    ensures |s| == ICACHE_ENTRIES && forall k | 0 <= k < ICACHE_ENTRIES :: s[k].tag == NOENTRY
  {
    seq(ICACHE_ENTRIES, k => Entry(NOENTRY, 0, IllegalInstruction))
  }

  /** Instructions are fetched from code at even addresses; stores keep off code and the
      page table. */
  ghost predicate Proper(c: Core, act: Act, code: iset<nat>)
    requires Shaped(c.port)
  {
    var m, r := c.port.mem, c.port.regs;
    match act
    case Step(addr, _) => addr < WORD && addr % 2 == 0 && InCode(m, r, addr, code)
    case RefillAt(addr, slot, _) => addr < WORD && addr % 2 == 0 && slot < ICACHE_ENTRIES && InCode(m, r, addr, code)
    case Data(op) => (op.LoadOp? || op.StoreOp?) && Formed(op) && Allowed(m, r, op) && OffCode(m, r, op, code)
    case _ => true
  }

  ghost function Do(c: Core, d: Decoding, act: Act, code: iset<nat>): Core
    requires WellShaped(c) && Total(d.table) && Proper(c, act, code)
  {
    match act
    case Step(addr, traced) => Access(c, d, addr, traced).0
    case RefillAt(addr, slot, traced) => Refill(c, d, addr, slot, traced).0
    case Data(op) => c.(port := FastStep(c.port, op).0)
    case FlushInsns => c.(icache := NoEntries())
    case FlushAll => c.(icache := NoEntries(), port := FastStep(c.port, Flush).0)
  }

  lemma DoKeeps(c: Core, d: Decoding, since: nat, act: Act, code: iset<nat>)
    requires Coherent(c, d, since, code) && WellShaped(c) && Total(d.table) && Proper(c, act, code)
    ensures var c' := Do(c, d, act, code);
            Coherent(c', d, since, code) && c.words <= c'.words && c'.port.regs == c.port.regs && Steady(c.port.mem, c'.port.mem, c.port.regs, code)
  {
    hide Ready, Steady, InCode, Right, Allowed, OffCode, FastStep, Total, Sane, Decodes, EntryOk, Refill, Access;
    match act
    case Step(addr, traced) => AccessRight(c, d, since, addr, traced, code);
    case RefillAt(addr, slot, traced) => RefillRight(c, d, since, addr, slot, traced, code);
    case Data(op) => DataKeeps(c, d, since, op, code);
    case FlushInsns =>
      ReadyIs(c.port, code);
      Emptied(c, d, since, c.port, code);
    case FlushAll =>
      ReadyIs(c.port, code);
      FlushReady(c.port, code);
      Emptied(c, d, since, FastStep(c.port, Flush).0, code);
  }

  lemma Emptied(c: Core, d: Decoding, since: nat, port: Port, code: iset<nat>)
    requires Coherent(c, d, since, code) && Ready(port, code)
    ensures Coherent(c.(icache := NoEntries(), port := port), d, since, code)
  {
    hide Sane, Apart, TlbMachine.Coherent;
  }

  lemma FlushReady(s: Port, code: iset<nat>)
    requires Ready(s, code)
    ensures var p := FastStep(s, Flush).0; Ready(p, code) && p.mem == s.mem && p.regs == s.regs
  {
    hide Apart;
    StepRefines(s, Flush);
  }

  /** A state some run of proper acts leads to. */
  ghost predicate Leads(c: Core, d: Decoding, acts: seq<Act>, code: iset<nat>, end: Core)
    decreases |acts|
  {
    if acts == [] then end == c
    else WellShaped(c) && Total(d.table) && Proper(c, acts[0], code) && Leads(Do(c, d, acts[0], code), d, acts[1..], code, end)
  }

  lemma {:induction false} RunKeeps(c: Core, d: Decoding, since: nat, acts: seq<Act>, code: iset<nat>, end: Core)
    requires Coherent(c, d, since, code) && Leads(c, d, acts, code, end) && Shaped(c.port)
    ensures Coherent(end, d, since, code) && c.words <= end.words && end.port.regs == c.port.regs && Steady(c.port.mem, end.port.mem, c.port.regs, code)
    decreases |acts|
  {
    hide Ready, Steady, Do, Total, Sane, EntryOk, Coherent, Proper;
    CoherentParts(c, d, since, code);
    ReadyIs(c.port, code);
    if acts != [] {
      var c' := Do(c, d, acts[0], code);
      DoKeeps(c, d, since, acts[0], code);
      CoherentParts(c', d, since, code);
      ReadyIs(c'.port, code);
      RunKeeps(c', d, since, acts[1..], code, end);
      SteadyTrans(c.port.mem, c'.port.mem, end.port.mem, c.port.regs, code);
    }
  }

  /** After any run from a flush, a fetch gives the instruction that memory held at the
      flush, assembled through the page table of that moment, with the handler a linear
      search of the sorted table finds; for word 1 the one the decoder had for it at
      some moment since the flush. */
  lemma FetchAfterRun(c: Core, d: Decoding, acts: seq<Act>, code: iset<nat>, end: Core, addr: nat, traced: bool)
    requires Ready(c.port, code) && Shaped(c.port) && Sane(d) && Total(d.table) && c.icache == NoEntries()
    requires Leads(c, d, acts, code, end)
    requires addr < WORD && addr % 2 == 0 && InCode(c.port.mem, c.port.regs, addr, code)
    ensures WellShaped(end) && c.words <= end.words
    ensures var f := Access(end, d, addr, traced);
            end.words <= f.0.words && Right(c.port.mem, c.port.regs, d, |c.words|, f.0.words, addr, f.1)
  {
    hide Ready, Steady, InCode, Total, Sane, Right, Access, Leads, PlainInsn, Decodes;
    var since := |c.words|;
    assert Coherent(c, d, since, code);
    RunKeeps(c, d, since, acts, code, end);
    CoherentParts(end, d, since, code);
    SteadyPlain(c.port.mem, end.port.mem, c.port.regs, addr, code);
    AccessRight(end, d, since, addr, traced, code);
    var f := Access(end, d, addr, traced);
    RightSame(c.port.mem, end.port.mem, c.port.regs, d, since, f.0.words, addr, f.1);
  }

  lemma RightSame(m: seq<Byte>, m': seq<Byte>, r: Regs, d: Decoding, since: nat, words: seq<Patterns.Bits>, addr: nat, answer: Answer)
    requires Paged(m) && Paged(m') && r.root % PAGE == 0 && Total(d.table)
    requires PlainInsn(m', r, addr) == PlainInsn(m, r, addr) && Right(m', r, d, since, words, addr, answer)
    ensures Right(m, r, d, since, words, addr, answer)
  {
    hide PlainInsn, Decodes;
  }

  /** Once another word has been decoded in the slot of word 1, no fetch is answered with
      anything but what a linear search of the sorted table finds. */
  lemma FetchOnceDisplaced(c: Core, d: Decoding, acts: seq<Act>, code: iset<nat>, end: Core, addr: nat, traced: bool)
    requires Ready(c.port, code) && Shaped(c.port) && Sane(d) && Total(d.table) && c.icache == NoEntries()
    requires Leads(c, d, acts, code, end) && Decoder.Displaced(c.words)
    requires addr < WORD && addr % 2 == 0 && InCode(c.port.mem, c.port.regs, addr, code)
    ensures WellShaped(end) && match PlainInsn(c.port.mem, c.port.regs, addr)
      case Trap => Access(end, d, addr, traced).1 == Faulted
      case Bits(bits) => bits < WORD && Access(end, d, addr, traced).1 == Fetched(bits, Decoder.Searched(d.table, WordOf(bits), d.xlen64))
  {
    hide Ready, Steady, InCode, Total, Sane, Access, Leads, PlainInsn, WordOf, Decoder.Searched, Decoder.Displaced;
    FetchAfterRun(c, d, acts, code, end, addr, traced);
    var f := Access(end, d, addr, traced);
    if f.1.Fetched? {
      var n :| |c.words| <= n <= |f.0.words| && Answers(d, f.0.words, n, f.1.insn, f.1.func);
      StaysDisplaced(c.words, f.0.words[..n]);
    }
  }

  lemma StaysDisplaced(words: seq<Patterns.Bits>, more: seq<Patterns.Bits>)
    requires Decoder.Displaced(words) && words <= more
    ensures Decoder.Displaced(more)
  {
    hide Decoder.Slot;
    var k :| 0 <= k < |words| && words[k] != 1 && Decoder.Slot(words[k]) == Decoder.Slot(1);
    assert more[k] == words[k];
  }
}
