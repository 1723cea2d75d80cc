/** The instruction side of mmu_t: refill_icache and access_icache over arrays. */
module FetchUnit {
  import opened Mstatus
  import opened PageTables
  import opened TlbMachine
  import opened Hart
  import opened MemoryUnit
  import opened Icache
  import opened DecodeList
  import Patterns
  import Decoder
  import R = IcacheRuns

  class Fetcher {
    const mmu: Mmu
    const decoder: Decoder.Processor
    const icacheTag: array<nat>
    const icacheInsn: array<nat>
    const icacheFunc: array<Handler>
    /** The sorted instruction table, and the words decoded so far. */
    ghost const decoding: R.Decoding
    ghost var words: seq<Patterns.Bits>

    ghost predicate Valid()
      reads this, mmu.state, decoder, decoder.instructions, decoder.opcodeCache
    {
      && mmu.Valid() && decoder.Valid()
      && icacheTag.Length == icacheInsn.Length == icacheFunc.Length == ICACHE_ENTRIES && Apart()
      && Total(decoding.table) && decoding.xlen64 == decoder.xlen64
      && decoder.State() == Decoder.Run(decoding.table, words)
    }

    /** The arrays of numbers are distinct. */
    predicate Apart() {
      && icacheTag != icacheInsn
      && icacheTag !in {mmu.tlbInsnTag, mmu.tlbLoadTag, mmu.tlbStoreTag}
      && icacheInsn !in {mmu.tlbInsnTag, mmu.tlbLoadTag, mmu.tlbStoreTag}
    }

    ghost function Entries(): (s: seq<R.Entry>)
      requires icacheTag.Length == icacheInsn.Length == icacheFunc.Length == ICACHE_ENTRIES
      reads icacheTag, icacheInsn, icacheFunc
      ensures |s| == ICACHE_ENTRIES
    {
      seq(ICACHE_ENTRIES, k requires 0 <= k < ICACHE_ENTRIES reads icacheTag, icacheInsn, icacheFunc
        => R.Entry(icacheTag[k], icacheInsn[k], icacheFunc[k]))
    }

    ghost function Value(): R.Core
      requires icacheTag.Length == icacheInsn.Length == icacheFunc.Length == ICACHE_ENTRIES
      reads this, mmu.state, mmu.mem, mmu.tlbInsnTag, mmu.tlbLoadTag, mmu.tlbStoreTag, mmu.tlbData, icacheTag, icacheInsn, icacheFunc
    {
      R.Core(mmu.Value(), Entries(), words)
    }

    constructor (mmu: Mmu, table: seq<Desc>, xlen64: bool)
      requires mmu.Valid() && Total(table)
      ensures Valid() && this.mmu == mmu && decoding == R.Decoding(table, xlen64) && words == []
      ensures forall k | 0 <= k < ICACHE_ENTRIES :: Entries()[k].tag == NOENTRY
    {
      this.mmu := mmu;
      decoder := new Decoder.Processor(table, xlen64);
      icacheTag := new nat[ICACHE_ENTRIES](i => NOENTRY);
      icacheInsn := new nat[ICACHE_ENTRIES](i => 0);
      icacheFunc := new Handler[ICACHE_ENTRIES](i => IllegalInstruction);
      decoding := R.Decoding(table, xlen64);
      words := [];
    }

    /** A fetch pointer for addr; even addresses leave room for a halfword. */
    method FetchPointer(addr: nat) returns (o: Outcome)
      requires mmu.Valid() && Sound(mmu.Value()) && Uniform(mmu.state.Regs()) && addr < WORD && addr % 2 == 0
      modifies mmu.mem, mmu.tlbInsnTag, mmu.tlbLoadTag, mmu.tlbStoreTag, mmu.tlbData
      ensures (mmu.Value(), o) == FetchPtr(old(mmu.Value()), addr) && Sound(mmu.Value())
      ensures o.At? || o.Outside?
      ensures o.At? ==> o.paddr + 2 <= mmu.mem.Length
    {
      ghost var s := mmu.Value();
      hide Sound, Uniform, Legal, Vm, Prv, Prv1, Mprv, FastStep;
      o := mmu.TranslateInsnAddr(addr);
      PointerRoom(s.mem, s.regs, addr);
    }

    method ReadHalfword(p: nat) returns (h: nat)
      requires p + 2 <= mmu.mem.Length
      ensures h == ReadHalf(mmu.mem[..], p)
    {
      h := mmu.mem[p] as nat + 256 * mmu.mem[p + 1] as nat;
    }

    /** The assembly of one instruction; its traps are the fetches that found no page. */
    method AssembleBits(addr: nat) returns (g: Got)
      requires mmu.Valid() && Sound(mmu.Value()) && Uniform(mmu.state.Regs()) && addr < WORD && addr % 2 == 0
      modifies mmu.mem, mmu.tlbInsnTag, mmu.tlbLoadTag, mmu.tlbStoreTag, mmu.tlbData
      ensures (mmu.Value(), g) == Assemble(old(mmu.Value()), addr) && Sound(mmu.Value())
    {
      hide Sound, Uniform, Legal, Vm, Prv, Prv1, Mprv, FastStep, FetchPtr, SignedAt, ReadHalf, Or2, Or3, Or4;
      ghost var s := mmu.Value();
      EvenStep(addr, 1);
      EvenStep(addr, 2);
      EvenStep(addr, 3);
      var o := FetchPointer(addr);
      if !o.At? {
        return Got.Trap;
      }
      var insn := ReadHalfword(o.paddr);
      var length := Length(insn);
      if length == 4 {
        if addr % PAGE < PAGE - 2 {
          g := Bits(Or2(insn, ReadHalf(mmu.mem[..], o.paddr + 2)));
        } else {
          var o1 := FetchPointer((addr + 2) % WORD);
          if !o1.At? { return Got.Trap; }
          var h := ReadHalfword(o1.paddr);
          g := Bits(Or2(insn, h));
        }
      } else if length == 2 {
        g := Bits(SignedAt(insn, 0));
      } else if length == 6 {
        var o2 := FetchPointer((addr + 4) % WORD);
        if !o2.At? { return Got.Trap; }
        var h2 := ReadHalfword(o2.paddr);
        var o1 := FetchPointer((addr + 2) % WORD);
        if !o1.At? { return Got.Trap; }
        var h1 := ReadHalfword(o1.paddr);
        g := Bits(Or3(insn, h1, h2));
      } else {
        var o3 := FetchPointer((addr + 6) % WORD);
        if !o3.At? { return Got.Trap; }
        var h3 := ReadHalfword(o3.paddr);
        var o2 := FetchPointer((addr + 4) % WORD);
        if !o2.At? { return Got.Trap; }
        var h2 := ReadHalfword(o2.paddr);
        var o1 := FetchPointer((addr + 2) % WORD);
        if !o1.At? { return Got.Trap; }
        var h1 := ReadHalfword(o1.paddr);
        g := Bits(Or4(insn, h1, h2, h3));
      }
    }

    method FlushIcache()
      requires Valid()
      modifies icacheTag
      ensures Valid() && forall k | 0 <= k < ICACHE_ENTRIES :: Entries()[k].tag == NOENTRY
    {
      forall k | 0 <= k < ICACHE_ENTRIES { icacheTag[k] := NOENTRY; }
    }

    method Decode(bits: nat) returns (func: Handler)
      requires Valid() && bits < WORD
      modifies this`words, decoder.instructions, decoder.opcodeCache
      ensures Valid() && words == old(words) + [R.WordOf(bits)]
      ensures func == Decoder.Decoded(decoding.table, old(words), R.WordOf(bits), decoding.xlen64)
    {
      hide Total, Decoder.Decode, R.WordOf, Legal;
      var w := bits as Patterns.Bits;
      assert w == R.WordOf(bits) by { WordIs(bits, w); }
      func := decoder.DecodeInsn(w);
      RunExtends(decoding.table, words, w);
      words := words + [w];
    }

    /** refill_icache, into whichever slot the caller names. */
    method RefillIcache(addr: nat, slot: nat, traced: bool) returns (a: R.Answer)
      requires Valid() && Sound(mmu.Value()) && Uniform(mmu.state.Regs()) && addr < WORD && addr % 2 == 0 && slot < ICACHE_ENTRIES
      modifies this`words, mmu.mem, mmu.tlbInsnTag, mmu.tlbLoadTag, mmu.tlbStoreTag, mmu.tlbData,
        icacheTag, icacheInsn, icacheFunc, decoder.instructions, decoder.opcodeCache
      ensures Valid() && Sound(mmu.Value())
      ensures (Value(), a) == R.Refill(old(Value()), decoding, addr, slot, traced)
    {
      hide Sound, Uniform, Legal, Vm, Prv, Prv1, Mprv, Assemble, Total, Decoder.Run, Decoder.Decoded, R.WordOf;
      ghost var c := Value();
      var g := AssembleBits(addr);
      if g.Trap? {
        return R.Faulted;
      }
      var func := Decode(g.bits);
      icacheTag[slot], icacheInsn[slot], icacheFunc[slot] := addr, g.bits, func;
      if traced {
        icacheTag[slot] := NOENTRY;
      }
      a := R.Fetched(g.bits, func);
      assert Entries() == c.icache[slot := R.Entry(if traced then NOENTRY else addr, g.bits, func)];
    }

    /** access_icache. */
    method AccessIcache(addr: nat, traced: bool) returns (a: R.Answer)
      requires Valid() && Sound(mmu.Value()) && Uniform(mmu.state.Regs()) && addr < WORD && addr % 2 == 0
      modifies this`words, mmu.mem, mmu.tlbInsnTag, mmu.tlbLoadTag, mmu.tlbStoreTag, mmu.tlbData,
        icacheTag, icacheInsn, icacheFunc, decoder.instructions, decoder.opcodeCache
      ensures Valid() && Sound(mmu.Value())
      ensures (Value(), a) == R.Access(old(Value()), decoding, addr, traced)
    {
      hide Sound, Uniform, Legal, Vm, Prv, Prv1, Mprv, R.Refill, Total, Decoder.Run;
      var idx := IcacheIndex(addr);
      if icacheTag[idx] == addr {
        a := R.Fetched(icacheInsn[idx], icacheFunc[idx]);
      } else {
        a := RefillIcache(addr, idx, traced);
      }
    }
  }

  lemma WordIs(bits: nat, w: Patterns.Bits)
    requires bits < WORD && w == bits as Patterns.Bits
    ensures w == R.WordOf(bits)
  {
  }

  lemma RunExtends(L0: seq<Desc>, ws: seq<Patterns.Bits>, w: Patterns.Bits)
    requires Total(L0)
    ensures Decoder.Run(L0, ws + [w]) == Decoder.Decode(Decoder.Run(L0, ws), w).0
  {
    hide Total, Decoder.Decode;
    assert (ws + [w])[..|ws|] == ws;
  }

  lemma PointerRoom(m: seq<Byte>, r: Regs, addr: nat)
    requires Paged(m) && |m| < WORD && r.root % PAGE == 0 && addr < WORD && addr % 2 == 0
    ensures var o := PlainStep(m, r, FetchOp(addr)).2;
            (o.At? || o.Outside?) && (o.At? ==> o.paddr + 2 <= |m|)
  {
    hide Translate, MemAfter;
    if Translate(m, r, Fetch, addr) < |m| {
      Aligned(m, r, Fetch, addr, 2);
    }
  }
}
