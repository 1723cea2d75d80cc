/** The software TLB of mmu_t on values: three tag arrays that share one array of
    offsets. It refines a memory system that walks the page table on every access. */
module TlbMachine {
  import opened PageTables
  import opened Powers

  const ENTRIES: nat := 256
  const NOTAG: nat := 0xFFFF_FFFF_FFFF_FFFF
  const VPNS: nat := 0x10_0000_0000_0000

  datatype Mode = User | Supervisor | Machine

  datatype Mapping = Bare | Paging(scheme: Scheme)

  /** What address translation depends on besides memory. */
  datatype Regs = Regs(rv64: bool, vm: Mapping, prv: Mode, prv1: Mode, mprv: bool, root: nat)

  /** The mode an access is made in. */
  function ModeFor(r: Regs, access: Access): Mode {
    if r.vm == Bare then Machine
    else if access != Fetch && r.mprv then r.prv1
    else r.prv
  }

  /** Fetches and data accesses both bypass translation, or neither does. */
  predicate Uniform(r: Regs) {
    ModeFor(r, Fetch) == Machine <==> ModeFor(r, Load) == Machine
  }

  function XlenSize(r: Regs): nat { if r.rv64 then WORD else 0x1_0000_0000 }

  function Lookup(m: seq<Byte>, r: Regs, access: Access, vpn: nat): (w: Walked)
    requires Paged(m) && r.root % PAGE == 0 && r.vm.Paging?
    ensures w.Leaf? ==> w.slot + PteSize(r.vm.scheme) <= |m| && w.slot % PteSize(r.vm.scheme) == 0
  {
    Walk(m, r.vm.scheme, r.root, vpn, ModeFor(r, access) != User, access)
  }

  /** mmu_t::translate; all ones when the walk fails. */
  function Translate(m: seq<Byte>, r: Regs, access: Access, addr: nat): nat
    requires Paged(m) && r.root % PAGE == 0
  {
    if ModeFor(r, access) == Machine then addr % XlenSize(r)
    else
      var w := Lookup(m, r, access, addr / PAGE);
      if w.Fault? then NOTAG else FrameOf(w, addr / PAGE) + addr % PAGE
  }

  /** Memory after that translation. */
  function MemAfter(m: seq<Byte>, r: Regs, access: Access, vpn: nat): (m': seq<Byte>)
    requires Paged(m) && r.root % PAGE == 0
    ensures |m'| == |m|
  {
    if ModeFor(r, access) == Machine then m else Mark(m, Lookup(m, r, access, vpn), access)
  }

  datatype Page = NoPage | Page(base: nat)

  function PageFor(m: seq<Byte>, r: Regs, access: Access, vpn: nat): (p: Page)
    requires Paged(m) && r.root % PAGE == 0
    ensures p.Page? ==> p.base % PAGE == 0
  {
    if ModeFor(r, access) == Machine then
      BareAligned(r, vpn, 0);
      Page(vpn * PAGE % XlenSize(r))
    else
      var w := Lookup(m, r, access, vpn);
      if w.Fault? then NoPage else Page(FrameOf(w, vpn))
  }

  lemma BareAligned(r: Regs, vpn: nat, o: nat)
    requires o < PAGE
    ensures vpn * PAGE % XlenSize(r) % PAGE == 0
    ensures (vpn * PAGE + o) % XlenSize(r) == vpn * PAGE % XlenSize(r) + o
  {
    if r.rv64 {
      var h, l := vpn / VPNS, vpn % VPNS;
      assert vpn * PAGE == h * WORD + l * PAGE;
      DivModUnique(h, l * PAGE, WORD);
      DivModUnique(h, l * PAGE + o, WORD);
    } else {
      var h, l := vpn / 0x10_0000, vpn % 0x10_0000;
      assert vpn * PAGE == h * 0x1_0000_0000 + l * PAGE;
      DivModUnique(h, l * PAGE, 0x1_0000_0000);
      DivModUnique(h, l * PAGE + o, 0x1_0000_0000);
    }
  }

  /** Translation is page by page. */
  lemma TranslateByPage(m: seq<Byte>, r: Regs, access: Access, addr: nat)
    requires Paged(m) && r.root % PAGE == 0
    ensures var p := PageFor(m, r, access, addr / PAGE);
            Translate(m, r, access, addr) == if p.NoPage? then NOTAG else p.base + addr % PAGE
  {
    BareAligned(r, addr / PAGE, addr % PAGE);
    assert addr == addr / PAGE * PAGE + addr % PAGE;
  }

  // ------------------------------------------------------------------- the machines

  datatype Tlb = Tlb(insn: seq<nat>, load: seq<nat>, store: seq<nat>, data: seq<int>)

  datatype Port = Port(mem: seq<Byte>, regs: Regs, tlb: Tlb)

  predicate WellSized(t: Tlb) { |t.insn| == |t.load| == |t.store| == |t.data| == ENTRIES }

  ghost predicate Shaped(s: Port) {
    Paged(s.mem) && |s.mem| < WORD && s.regs.root % PAGE == 0 && WellSized(s.tlb)
  }

  function Tags(t: Tlb, access: Access): seq<nat> {
    match access case Fetch => t.insn case Load => t.load case Store => t.store
  }

  function Untagged(): (s: seq<nat>)
    ensures |s| == ENTRIES && forall i | 0 <= i < ENTRIES :: s[i] == NOTAG
  {
    seq(ENTRIES, i => NOTAG)
  }

  /** mmu_t::flush_tlb: the tags go, the offsets stay. */
  function Flushed(t: Tlb): Tlb { Tlb(Untagged(), Untagged(), Untagged(), t.data) }

  predicate Hit(t: Tlb, access: Access, vpn: nat)
    requires WellSized(t)
  {
    Tags(t, access)[vpn % ENTRIES] == vpn
  }

  /** mmu_t::refill_tlb. */
  function Refill(t: Tlb, vaddr: nat, paddr: nat, access: Access): (t': Tlb)
    requires WellSized(t)
    ensures WellSized(t')
  {
    var vpn := vaddr / PAGE;
    var idx := vpn % ENTRIES;
    var load := if t.load[idx] != vpn then t.load[idx := NOTAG] else t.load;
    var store := if t.store[idx] != vpn then t.store[idx := NOTAG] else t.store;
    var insn := if t.insn[idx] != vpn then t.insn[idx := NOTAG] else t.insn;
    Tlb(if access == Fetch then insn[idx := vpn] else insn,
        if access == Load then load[idx := vpn] else load,
        if access == Store then store[idx := vpn] else store,
        t.data[idx := paddr - vaddr])
  }

  /** What an access gives: bytes read, a finished store, the physical address of an
      instruction, or an address outside memory, which is a device's or a fault.
      Wild is a host access outside the memory array. */
  datatype Outcome = Misaligned | Data(bytes: seq<Byte>) | Done | At(paddr: nat) | Outside(paddr: nat) | Wild

  function ReadAt(m: seq<Byte>, p: int, n: nat): Outcome {
    if 0 <= p && p + n <= |m| then Data(m[p..p + n]) else Wild
  }

  function WriteAt(m: seq<Byte>, p: int, bytes: seq<Byte>): (r: (seq<Byte>, Outcome))
    ensures |r.0| == |m|
  {
    if 0 <= p && p + |bytes| <= |m| then (m[..p] + bytes + m[p + |bytes|..], Done) else (m, Wild)
  }

  function PointAt(m: seq<Byte>, p: int): Outcome {
    if 0 <= p < |m| then At(p) else Wild
  }

  datatype Op =
    | LoadOp(addr: nat, n: nat, traced: bool)
    | StoreOp(addr: nat, bytes: seq<Byte>, traced: bool)
    | FetchOp(addr: nat)
    | Flush
    /** A write to mstatus; flush says whether it emptied the TLB. */
    | Switch(regs: Regs, flush: bool)
    /** Software rewrites memory and sptbr at will and then fences. */
    | Remap(mem: seq<Byte>, root: nat)

  predicate Sized(n: nat) { n == 1 || n == 2 || n == 4 || n == 8 }

  predicate Formed(op: Op) {
    match op
    case LoadOp(addr, n, _) => addr < WORD && Sized(n)
    case StoreOp(addr, bytes, _) => addr < WORD && Sized(|bytes|)
    case FetchOp(addr) => addr < WORD
    case Flush => true
    case Switch(r, _) => r.root % PAGE == 0
    case Remap(m, root) => |m| % PAGE == 0 && |m| < WORD && root % PAGE == 0
  }

  /** One operation on the memory system without a TLB. */
  function PlainStep(m: seq<Byte>, r: Regs, op: Op): (seq<Byte>, Regs, Outcome)
    requires Paged(m) && |m| < WORD && r.root % PAGE == 0 && Formed(op)
  {
    match op
    case LoadOp(addr, n, _) =>
      if addr % n != 0 then (m, r, Misaligned)
      else
        var pa := Translate(m, r, Load, addr);
        var m1 := MemAfter(m, r, Load, addr / PAGE);
        (m1, r, if pa < |m1| then ReadAt(m1, pa, n) else Outside(pa))
    case StoreOp(addr, bytes, _) =>
      if addr % |bytes| != 0 then (m, r, Misaligned)
      else
        var pa := Translate(m, r, Store, addr);
        var m1 := MemAfter(m, r, Store, addr / PAGE);
        if pa < |m1| then var w := WriteAt(m1, pa, bytes); (w.0, r, w.1) else (m1, r, Outside(pa))
    case FetchOp(addr) =>
      var pa := Translate(m, r, Fetch, addr);
      var m1 := MemAfter(m, r, Fetch, addr / PAGE);
      (m1, r, if pa < |m1| then PointAt(m1, pa) else Outside(pa))
    case Flush => (m, r, Done)
    case Switch(r', _) => (m, r', Done)
    case Remap(m', root) => (m', r.(root := root), Done)
  }

  /** One operation on the memory system with the TLB. */
  function FastStep(s: Port, op: Op): (Port, Outcome)
    requires Shaped(s) && Formed(op)
  {
    var m, r, t := s.mem, s.regs, s.tlb;
    match op
    case LoadOp(addr, n, traced) =>
      if addr % n != 0 then (s, Misaligned)
      else if Hit(t, Load, addr / PAGE) then (s, ReadAt(m, t.data[addr / PAGE % ENTRIES] + addr, n))
      else
        var pa := Translate(m, r, Load, addr);
        var m1 := MemAfter(m, r, Load, addr / PAGE);
        if pa < |m1| then (Port(m1, r, if traced then t else Refill(t, addr, pa, Load)), ReadAt(m1, pa, n))
        else (Port(m1, r, t), Outside(pa))
    case StoreOp(addr, bytes, traced) =>
      if addr % |bytes| != 0 then (s, Misaligned)
      else if Hit(t, Store, addr / PAGE) then
        var w := WriteAt(m, t.data[addr / PAGE % ENTRIES] + addr, bytes);
        (Port(w.0, r, t), w.1)
      else
        var pa := Translate(m, r, Store, addr);
        var m1 := MemAfter(m, r, Store, addr / PAGE);
        if pa < |m1| then
          var w := WriteAt(m1, pa, bytes);
          (Port(w.0, r, if traced then t else Refill(t, addr, pa, Store)), w.1)
        else (Port(m1, r, t), Outside(pa))
    case FetchOp(addr) =>
      if Hit(t, Fetch, addr / PAGE) then (s, PointAt(m, t.data[addr / PAGE % ENTRIES] + addr))
      else
        var pa := Translate(m, r, Fetch, addr);
        var m1 := MemAfter(m, r, Fetch, addr / PAGE);
        if pa < |m1| then (Port(m1, r, Refill(t, addr, pa, Fetch)), PointAt(m1, pa))
        else (Port(m1, r, t), Outside(pa))
    case Flush => (Port(m, r, Flushed(t)), Done)
    case Switch(r', flush) => (Port(m, r', if flush then Flushed(t) else t), Done)
    case Remap(m', root) => (Port(m', r.(root := root), Flushed(t)), Done)
  }

  /** What software owes: data stores stay off the live page table, and a change of
      mode or scheme empties the TLB, as set_csr sees to. */
  ghost predicate Allowed(m: seq<Byte>, r: Regs, op: Op)
    requires Paged(m) && |m| < WORD && r.root % PAGE == 0 && Formed(op)
  {
    match op
    case LoadOp(_, _, _) => true
    case StoreOp(addr, bytes, _) =>
      r.vm.Paging? ==> Clear(m, r.vm.scheme, r.root, Translate(m, r, Store, addr), |bytes|)
    case FetchOp(_) => true
    case Flush => true
    case Switch(r', flush) => flush || r' == r
    case Remap(_, _) => true
  }

  // -------------------------------------------------------------------- coherence

  /** A walk for this access would find its flag bits set. */
  ghost predicate Settled(m: seq<Byte>, r: Regs, access: Access, vpn: nat)
    requires Paged(m) && r.root % PAGE == 0
  {
    ModeFor(r, access) == Machine ||
    (var w := Lookup(m, r, access, vpn); w.Leaf? && WithRD(m[w.slot], access) == m[w.slot])
  }

  /** A tag at index i stands for the page the walk would give. */
  ghost predicate Entry(m: seq<Byte>, r: Regs, access: Access, i: nat, tag: nat, data: int)
    requires Paged(m) && r.root % PAGE == 0
  {
    && tag < VPNS && tag % ENTRIES == i
    && var p := PageFor(m, r, access, tag);
       p.Page? && p.base + PAGE <= |m| && data == p.base - tag * PAGE && Settled(m, r, access, tag)
  }

  ghost predicate Coherent(s: Port)
    requires Shaped(s)
  {
    forall access: Access, i: nat | i < ENTRIES ::
      Tags(s.tlb, access)[i] == NOTAG || Entry(s.mem, s.regs, access, i, Tags(s.tlb, access)[i], s.tlb.data[i])
  }

  lemma EmptyCoherent(s: Port)
    requires Shaped(s) && s.tlb == Flushed(s.tlb)
    ensures Coherent(s)
  {
  }

  lemma SettledMem(m: seq<Byte>, r: Regs, access: Access, vpn: nat)
    requires Paged(m) && r.root % PAGE == 0 && Settled(m, r, access, vpn)
    ensures MemAfter(m, r, access, vpn) == m
  {
  }

  /** A hit gives what translate would give, inside memory, and the walk it saves would
      write nothing. */
  lemma HitTranslates(s: Port, access: Access, addr: nat)
    requires Shaped(s) && Coherent(s) && addr < WORD && Hit(s.tlb, access, addr / PAGE)
    ensures var pa := Translate(s.mem, s.regs, access, addr);
            && s.tlb.data[addr / PAGE % ENTRIES] + addr == pa && pa / PAGE * PAGE + PAGE <= |s.mem|
            && MemAfter(s.mem, s.regs, access, addr / PAGE) == s.mem
  {
    hide PageFor, Translate, MemAfter, Settled;
    var vpn := addr / PAGE;
    var i := vpn % ENTRIES;
    assert Tags(s.tlb, access)[i] == vpn != NOTAG;
    assert Entry(s.mem, s.regs, access, i, vpn, s.tlb.data[i]);
    TranslateByPage(s.mem, s.regs, access, addr);
    SettledMem(s.mem, s.regs, access, vpn);
  }

  /** A store served by a hit has its leaf entry's D bit set already, and its R bit. */
  lemma StoreHitDirty(s: Port, addr: nat)
    requires Shaped(s) && Coherent(s) && addr < WORD && Hit(s.tlb, Store, addr / PAGE) && ModeFor(s.regs, Store) != Machine
    ensures var w := Lookup(s.mem, s.regs, Store, addr / PAGE);
            w.Leaf? && s.mem[w.slot] / 64 % 2 == 1 && s.mem[w.slot] / 32 % 2 == 1
  {
    hide PageFor, Lookup, WithRD;
    var vpn := addr / PAGE;
    var i := vpn % ENTRIES;
    assert Tags(s.tlb, Store)[i] == vpn != NOTAG;
    assert Entry(s.mem, s.regs, Store, i, vpn, s.tlb.data[i]);
    RDSet(s.mem[Lookup(s.mem, s.regs, Store, vpn).slot], Store);
  }

  lemma LookupAfter(m: seq<Byte>, r: Regs, access: Access, vpn: nat, access': Access, vpn': nat)
    requires Paged(m) && r.root % PAGE == 0 && r.vm.Paging?
    ensures Lookup(MemAfter(m, r, access, vpn), r, access', vpn') == Lookup(m, r, access', vpn')
  {
    hide Similar, Mark, WalkFrom;
    if ModeFor(r, access) != Machine {
      var s := r.vm.scheme;
      MarkSimilar(m, s, Lookup(m, r, access, vpn), access);
      WalkFromSimilar(m, MemAfter(m, r, access, vpn), s, r.root, vpn', Levels(s), ModeFor(r, access') != User, access');
    }
  }

  /** The bits a walk writes change no page and unsettle nothing. */
  lemma WalkKeeps(m: seq<Byte>, r: Regs, access: Access, vpn: nat, access': Access, vpn': nat)
    requires Paged(m) && r.root % PAGE == 0
    ensures var m1 := MemAfter(m, r, access, vpn);
            && PageFor(m1, r, access', vpn') == PageFor(m, r, access', vpn')
            && (Settled(m, r, access', vpn') ==> Settled(m1, r, access', vpn'))
  {
    hide Lookup, Mark, WithRD, FrameOf;
    if r.vm.Paging? {
      LookupAfter(m, r, access, vpn, access', vpn');
      var w' := Lookup(m, r, access', vpn');
      if ModeFor(r, access) != Machine && ModeFor(r, access') != Machine && Settled(m, r, access', vpn') {
        MarksStay(m, Lookup(m, r, access, vpn), access, w'.slot, access');
      }
    }
  }

  /** A repeated walk returns the same page and writes nothing more. */
  lemma WalkTwice(m: seq<Byte>, r: Regs, access: Access, vpn: nat)
    requires Paged(m) && r.root % PAGE == 0
    ensures var m1 := MemAfter(m, r, access, vpn);
            && PageFor(m1, r, access, vpn) == PageFor(m, r, access, vpn)
            && MemAfter(m1, r, access, vpn) == m1
            && (PageFor(m, r, access, vpn).Page? ==> Settled(m1, r, access, vpn))
  {
    hide Lookup, WithRD, FrameOf;
    if ModeFor(r, access) != Machine {
      LookupAfter(m, r, access, vpn, access, vpn);
      var w := Lookup(m, r, access, vpn);
      if w.Leaf? {
        RDTwice(m[w.slot], access);
      }
    }
  }

  lemma RDTwice(b: Byte, access: Access)
    ensures WithRD(WithRD(b, access), access) == WithRD(b, access)
  {
    hide WithRD;
    RDSet(b, access);
    RDSet(WithRD(b, access), access);
  }

  /** Accesses that succeed on a page share it, if they agree on bypassing. */
  lemma PagesAgree(m: seq<Byte>, r: Regs, access: Access, access': Access, vpn: nat)
    requires Paged(m) && r.root % PAGE == 0 && Uniform(r)
    requires PageFor(m, r, access, vpn).Page? && PageFor(m, r, access', vpn).Page?
    ensures PageFor(m, r, access, vpn) == PageFor(m, r, access', vpn)
  {
    hide FrameOf, Canonical, WalkFrom;
    if ModeFor(r, access) != Machine {
      var s := r.vm.scheme;
      assert Lookup(m, r, access, vpn).Leaf? && Lookup(m, r, access', vpn).Leaf?;
      WalkFromAgrees(m, s, r.root, vpn, Levels(s), ModeFor(r, access) != User, access, ModeFor(r, access') != User, access');
    }
  }

  lemma WalkCoherent(s: Port, access: Access, vpn: nat)
    requires Shaped(s) && Coherent(s)
    ensures Coherent(s.(mem := MemAfter(s.mem, s.regs, access, vpn)))
  {
    hide MemAfter, PageFor, Settled;
    var s' := s.(mem := MemAfter(s.mem, s.regs, access, vpn));
    forall a: Access, i: nat | i < ENTRIES && Tags(s.tlb, a)[i] != NOTAG
      ensures Entry(s'.mem, s.regs, a, i, Tags(s.tlb, a)[i], s.tlb.data[i])
    {
      assert Entry(s.mem, s.regs, a, i, Tags(s.tlb, a)[i], s.tlb.data[i]);
      WalkKeeps(s.mem, s.regs, access, vpn, a, Tags(s.tlb, a)[i]);
    }
  }

  lemma RefillTags(t: Tlb, vaddr: nat, paddr: nat, access: Access, a: Access, i: nat)
    requires WellSized(t) && i < ENTRIES
    ensures var vpn := vaddr / PAGE; var t' := Refill(t, vaddr, paddr, access);
      if i != vpn % ENTRIES then Tags(t', a)[i] == Tags(t, a)[i] && t'.data[i] == t.data[i]
      else t'.data[i] == paddr - vaddr &&
           Tags(t', a)[i] == if a == access || Tags(t, a)[i] == vpn then vpn else NOTAG
  {
  }

  /** Refilling keeps the TLB coherent although the three kinds of tag share the offset:
      a tag survives only if it names the same page, whose translation is the same. */
  lemma RefillCoherent(s: Port, access: Access, addr: nat, pa: nat)
    requires Shaped(s) && Coherent(s) && Uniform(s.regs) && addr < WORD
    requires pa == Translate(s.mem, s.regs, access, addr) && pa < |s.mem| && Settled(s.mem, s.regs, access, addr / PAGE)
    ensures Coherent(s.(tlb := Refill(s.tlb, addr, pa, access)))
  {
    hide PageFor, Settled, Uniform, Translate, Refill;
    var m, r, t, vpn := s.mem, s.regs, s.tlb, addr / PAGE;
    var t' := Refill(t, addr, pa, access);
    TranslateByPage(m, r, access, addr);
    var p := PageFor(m, r, access, vpn);
    assert p.Page? && p.base + PAGE <= |m|;
    forall a: Access, i: nat | i < ENTRIES && Tags(t', a)[i] != NOTAG
      ensures Entry(m, r, a, i, Tags(t', a)[i], t'.data[i])
    {
      RefillTags(t, addr, pa, access, a, i);
      if i != vpn % ENTRIES || a != access {
        assert Entry(m, r, a, i, Tags(t, a)[i], t.data[i]);
        if i == vpn % ENTRIES {
          PagesAgree(m, r, access, a, vpn);
        }
      }
    }
  }

  /** Bytes stored clear of the page table keep the TLB coherent. */
  lemma StoreCoherent(s: Port, m': seq<Byte>, a: nat, n: nat)
    requires Shaped(s) && Coherent(s) && |m'| == |s.mem|
    requires s.regs.vm.Paging? ==> Clear(s.mem, s.regs.vm.scheme, s.regs.root, a, n)
    requires forall i | 0 <= i < |m'| && !(a <= i < a + n) :: s.mem[i] == m'[i]
    ensures Coherent(s.(mem := m'))
  {
    hide Walk, Clear, WithRD, FrameOf;
    var r := s.regs;
    forall k: Access, i: nat | i < ENTRIES && Tags(s.tlb, k)[i] != NOTAG
      ensures Entry(m', r, k, i, Tags(s.tlb, k)[i], s.tlb.data[i])
    {
      var vpn := Tags(s.tlb, k)[i];
      assert Entry(s.mem, r, k, i, vpn, s.tlb.data[i]);
      if r.vm.Paging? {
        WalkUntouched(s.mem, m', r.vm.scheme, r.root, a, n, vpn, ModeFor(r, k) != User, k);
      }
    }
  }

  lemma LoadRefines(s: Port, addr: nat, n: nat, traced: bool)
    requires Shaped(s) && Coherent(s) && Uniform(s.regs) && Formed(LoadOp(addr, n, traced))
    ensures var f := FastStep(s, LoadOp(addr, n, traced)); var p := PlainStep(s.mem, s.regs, LoadOp(addr, n, traced));
            f.1 == p.2 && f.0.mem == p.0 && f.0.regs == p.1 && Shaped(f.0) && Coherent(f.0)
  {
    hide Translate, MemAfter, Coherent, Refill, Tags, Uniform, Settled, PageFor;
    if addr % n == 0 {
      var vpn := addr / PAGE;
      if Hit(s.tlb, Load, vpn) {
        HitTranslates(s, Load, addr);
      } else {
        Missed(s, Load, addr);
      }
    }
  }

  /** After a miss: walking, with or without the refill, keeps the TLB coherent. */
  lemma Missed(s: Port, access: Access, addr: nat)
    requires Shaped(s) && Coherent(s) && Uniform(s.regs) && addr < WORD
    ensures var pa := Translate(s.mem, s.regs, access, addr);
            var s1 := s.(mem := MemAfter(s.mem, s.regs, access, addr / PAGE));
            Coherent(s1) && (pa < |s.mem| ==> Coherent(s1.(tlb := Refill(s.tlb, addr, pa, access))))
  {
    hide Translate, MemAfter, Coherent, Refill, Tags, Uniform, Settled, PageFor;
    var vpn := addr / PAGE;
    var pa := Translate(s.mem, s.regs, access, addr);
    var s1 := s.(mem := MemAfter(s.mem, s.regs, access, vpn));
    WalkCoherent(s, access, vpn);
    WalkTwice(s.mem, s.regs, access, vpn);
    TranslateByPage(s.mem, s.regs, access, addr);
    TranslateByPage(s1.mem, s.regs, access, addr);
    if pa < |s.mem| {
      RefillCoherent(s1, access, addr, pa);
    }
  }

  lemma FetchRefines(s: Port, addr: nat)
    requires Shaped(s) && Coherent(s) && Uniform(s.regs) && addr < WORD
    ensures var f := FastStep(s, FetchOp(addr)); var p := PlainStep(s.mem, s.regs, FetchOp(addr));
            f.1 == p.2 && f.0.mem == p.0 && f.0.regs == p.1 && Shaped(f.0) && Coherent(f.0)
  {
    hide Translate, MemAfter, Coherent, Refill, Tags, Uniform, Settled, PageFor;
    if Hit(s.tlb, Fetch, addr / PAGE) {
      HitTranslates(s, Fetch, addr);
    } else {
      Missed(s, Fetch, addr);
    }
  }

  lemma WriteElsewhere(m: seq<Byte>, p: int, bytes: seq<Byte>)
    requires p >= 0
    ensures var m' := WriteAt(m, p, bytes).0;
            |m'| == |m| && forall i | 0 <= i < |m| && !(p <= i < p + |bytes|) :: m[i] == m'[i]
  {
  }

  /** A walk visits the leaf it finds. */
  lemma LeafVisited(m: seq<Byte>, r: Regs, access: Access, vpn: nat)
    requires Paged(m) && r.root % PAGE == 0 && r.vm.Paging? && Lookup(m, r, access, vpn).Leaf?
    ensures Visits(m, r.vm.scheme, r.root, vpn, Levels(r.vm.scheme), Lookup(m, r, access, vpn).slot)
  {
    hide Canonical, Visits;
    var s := r.vm.scheme;
    WalkFromUntouched(m, m, s, r.root, vpn, Levels(s), ModeFor(r, access) != User, access);
  }

  lemma ClearAfterWalk(m: seq<Byte>, r: Regs, access: Access, vpn: nat, a: nat, n: nat)
    requires Paged(m) && r.root % PAGE == 0 && r.vm.Paging? && Clear(m, r.vm.scheme, r.root, a, n)
    ensures Clear(MemAfter(m, r, access, vpn), r.vm.scheme, r.root, a, n)
  {
    hide Clear, Lookup, Mark;
    if ModeFor(r, access) != Machine {
      ClearAfterMark(m, r.vm.scheme, r.root, Lookup(m, r, access, vpn), access, a, n);
    }
  }

  lemma StoreRefines(s: Port, addr: nat, bytes: seq<Byte>, traced: bool)
    requires Shaped(s) && Coherent(s) && Uniform(s.regs) && Formed(StoreOp(addr, bytes, traced))
    ensures var f := FastStep(s, StoreOp(addr, bytes, traced)); var p := PlainStep(s.mem, s.regs, StoreOp(addr, bytes, traced));
            f.1 == p.2 && f.0.mem == p.0 && f.0.regs == p.1 && Shaped(f.0)
            && (Allowed(s.mem, s.regs, StoreOp(addr, bytes, traced)) ==> Coherent(f.0))
  {
    hide Translate, MemAfter, Coherent, Refill, Tags, Uniform, Settled, PageFor, Clear, WriteAt;
    if addr % |bytes| == 0 {
      var r, vpn := s.regs, addr / PAGE;
      var pa := Translate(s.mem, r, Store, addr);
      if Hit(s.tlb, Store, vpn) {
        HitTranslates(s, Store, addr);
        WriteElsewhere(s.mem, pa, bytes);
        if Allowed(s.mem, r, StoreOp(addr, bytes, traced)) {
          StoreCoherent(s, WriteAt(s.mem, pa, bytes).0, pa, |bytes|);
        }
      } else {
        Missed(s, Store, addr);
        var s1 := s.(mem := MemAfter(s.mem, r, Store, vpn));
        if pa < |s.mem| {
          WriteElsewhere(s1.mem, pa, bytes);
          var s2 := if traced then s1 else s1.(tlb := Refill(s.tlb, addr, pa, Store));
          if Allowed(s.mem, r, StoreOp(addr, bytes, traced)) {
            if r.vm.Paging? {
              ClearAfterWalk(s.mem, r, Store, vpn, pa, |bytes|);
            }
            StoreCoherent(s2, WriteAt(s1.mem, pa, bytes).0, pa, |bytes|);
          }
        }
      }
    }
  }

  predicate IsAccess(op: Op) { op.LoadOp? || op.StoreOp? || op.FetchOp? }

  /** The invariant of every run: when fetches and data accesses translate alike, the
      TLB agrees with the page table. */
  ghost predicate Sound(s: Port) { Shaped(s) && (Uniform(s.regs) ==> Coherent(s)) }

  /** Every step of the fast machine does what the plain one does, and stays sound if it
      is an allowed one. */
  lemma StepRefines(s: Port, op: Op)
    requires Sound(s) && Formed(op) && (IsAccess(op) ==> Uniform(s.regs))
    ensures var f := FastStep(s, op); var p := PlainStep(s.mem, s.regs, op);
            f.1 == p.2 && f.0.mem == p.0 && f.0.regs == p.1 && Shaped(f.0) && (Allowed(s.mem, s.regs, op) ==> Sound(f.0))
  {
    hide Translate, MemAfter, Refill, Uniform, Coherent, Clear;
    match op
    case LoadOp(addr, n, traced) => LoadRefines(s, addr, n, traced);
    case StoreOp(addr, bytes, traced) => StoreRefines(s, addr, bytes, traced);
    case FetchOp(addr) => FetchRefines(s, addr);
    case Flush => EmptyCoherent(FastStep(s, op).0);
    case Switch(_, flush) => if flush { EmptyCoherent(FastStep(s, op).0); }
    case Remap(_, _) => EmptyCoherent(FastStep(s, op).0);
  }

  // -------------------------------------------------------------------------- runs

  /** A run without the TLB. */
  function PlainRun(m: seq<Byte>, r: Regs, ops: seq<Op>): seq<Outcome>
    requires Paged(m) && |m| < WORD && r.root % PAGE == 0 && forall op | op in ops :: Formed(op)
    decreases |ops|
  {
    if ops == [] then []
    else
      var p := PlainStep(m, r, ops[0]);
      PlainShaped(m, r, ops[0]);
      [p.2] + PlainRun(p.0, p.1, ops[1..])
  }

  lemma PlainShaped(m: seq<Byte>, r: Regs, op: Op)
    requires Paged(m) && |m| < WORD && r.root % PAGE == 0 && Formed(op)
    ensures var p := PlainStep(m, r, op); Paged(p.0) && |p.0| < WORD && p.1.root % PAGE == 0
  {
    hide Translate, MemAfter;
  }

  lemma FastShaped(s: Port, op: Op)
    requires Shaped(s) && Formed(op)
    ensures Shaped(FastStep(s, op).0)
  {
    hide Translate, MemAfter, Refill;
  }

  /** A run with it. */
  ghost function FastRun(s: Port, ops: seq<Op>): seq<Outcome>
    requires Shaped(s) && forall op | op in ops :: Formed(op)
    decreases |ops|
  {
    if ops == [] then []
    else
      var f := FastStep(s, ops[0]);
      FastShaped(s, ops[0]);
      [f.1] + FastRun(f.0, ops[1..])
  }

  /** Software keeps its side along the plain run, and accesses memory only while
      fetches and data accesses translate alike. */
  ghost predicate Disciplined(m: seq<Byte>, r: Regs, ops: seq<Op>)
    requires Paged(m) && |m| < WORD && r.root % PAGE == 0 && forall op | op in ops :: Formed(op)
    decreases |ops|
  {
    ops != [] ==>
      var p := PlainStep(m, r, ops[0]);
      PlainShaped(m, r, ops[0]);
      Allowed(m, r, ops[0]) && (IsAccess(ops[0]) ==> Uniform(r)) && Disciplined(p.0, p.1, ops[1..])
  }

  /** An aligned access that starts in memory stays in it. */
  lemma Aligned(m: seq<Byte>, r: Regs, access: Access, addr: nat, n: nat)
    requires Paged(m) && |m| < WORD && r.root % PAGE == 0 && Sized(n) && addr % n == 0
    requires Translate(m, r, access, addr) < |m|
    ensures Translate(m, r, access, addr) + n <= |m|
  {
    hide PageFor, Translate;
    TranslateByPage(m, r, access, addr);
    var p := PageFor(m, r, access, addr / PAGE);
    PageInside(p.base, addr % PAGE, |m|);
    PageRoom(addr, n);
  }

  lemma PageInside(base: nat, o: nat, size: nat)
    requires base % PAGE == 0 && size % PAGE == 0 && base + o < size
    ensures base + PAGE <= size
  {
  }

  lemma PageRoom(addr: nat, n: nat)
    requires Sized(n) && addr % n == 0
    ensures addr % PAGE + n <= PAGE
  {
    var q, o := addr / PAGE, addr % PAGE;
    assert addr == PAGE * q + o;
    match n
    case 8 => var k := addr / 8; assert o == 8 * (k - 512 * q);
    case 4 => var k := addr / 4; assert o == 4 * (k - 1024 * q);
    case 2 => var k := addr / 2; assert o == 2 * (k - 2048 * q);
    case _ =>
  }

  lemma NeverWild(m: seq<Byte>, r: Regs, op: Op)
    requires Paged(m) && |m| < WORD && r.root % PAGE == 0 && Formed(op)
    ensures PlainStep(m, r, op).2 != Wild
  {
    hide Translate, MemAfter;
    if op.LoadOp? && op.addr % op.n == 0 && Translate(m, r, Load, op.addr) < |m| {
      Aligned(m, r, Load, op.addr, op.n);
    }
    if op.StoreOp? && op.addr % |op.bytes| == 0 && Translate(m, r, Store, op.addr) < |m| {
      Aligned(m, r, Store, op.addr, |op.bytes|);
    }
  }

  /** The TLB is invisible over every disciplined run: the same bytes, the same faults,
      and never a host access outside memory. */
  lemma {:induction false} RunRefines(s: Port, ops: seq<Op>)
    requires Sound(s) && (forall op | op in ops :: Formed(op)) && Disciplined(s.mem, s.regs, ops)
    ensures FastRun(s, ops) == PlainRun(s.mem, s.regs, ops) && Wild !in FastRun(s, ops)
    decreases |ops|
  {
    hide PlainStep, FastStep, Allowed, Uniform, Coherent;
    if ops != [] {
      StepRefines(s, ops[0]);
      NeverWild(s.mem, s.regs, ops[0]);
      RunRefines(FastStep(s, ops[0]).0, ops[1..]);
    }
  }
}
