/** What memory behind a page table is for: a load reads what was stored. */
module MemoryLaws {
  import opened PageTables
  import opened TlbMachine
  import PageEntries

  /** Where a store may go a load may go, to the same leaf. */
  lemma {:induction false} StoreWalkLoads(m: seq<Byte>, s: Scheme, base: nat, vpn: nat, level: nat, supervisor: bool)
    requires Paged(m) && base % PAGE == 0
    ensures var w := WalkFrom(m, s, base, vpn, level, supervisor, Store);
            w.Leaf? ==> WalkFrom(m, s, base, vpn, level, supervisor, Load) == w
    decreases level
  {
    hide Slot, Le, IsTable, Permits, Next;
    if level > 0 {
      var slot := Slot(s, base, vpn, level);
      if slot < |m| {
        EntryFits(m, s, base, vpn, level);
        var pte := Le(m, slot, PteSize(s));
        PageEntries.RightsNest(pte, supervisor, Store);
        if IsTable(pte) {
          StoreWalkLoads(m, s, Next(pte), vpn, level - 1, supervisor);
        }
      }
    }
  }

  /** After a store that finished, the walk of a load gives the same place, and marks
      nothing inside the bytes stored. */
  lemma StoredPlace(m: seq<Byte>, r: Regs, addr: nat, n: nat, m2: seq<Byte>)
    requires Paged(m) && r.root % PAGE == 0 && r.vm.Paging? && ModeFor(r, Store) != Machine
    requires |m2| == |m| < WORD && Translate(m, r, Store, addr) + n <= |m|
    requires Clear(m, r.vm.scheme, r.root, Translate(m, r, Store, addr), n)
    requires forall i | 0 <= i < |m| && !(Translate(m, r, Store, addr) <= i < Translate(m, r, Store, addr) + n) ::
               MemAfter(m, r, Store, addr / PAGE)[i] == m2[i]
    ensures Translate(m2, r, Load, addr) == Translate(m, r, Store, addr)
    ensures forall i | Translate(m, r, Store, addr) <= i < Translate(m, r, Store, addr) + n ::
              MemAfter(m2, r, Load, addr / PAGE)[i] == m2[i]
  {
    hide Walk, Clear, Visits, FrameOf, WithRD;
    var s, vpn, pa := r.vm.scheme, addr / PAGE, Translate(m, r, Store, addr);
    var m1 := MemAfter(m, r, Store, vpn);
    var w := Lookup(m, r, Store, vpn);
    assert Lookup(m, r, Load, vpn) == w by { SameLookup(m, r, vpn); }
    LookupAfter(m, r, Store, vpn, Load, vpn);
    ClearAfterWalk(m, r, Store, vpn, pa, n);
    WalkUntouched(m1, m2, s, r.root, pa, n, vpn, ModeFor(r, Load) != User, Load);
    LeafVisited(m1, r, Load, vpn);
    LeafClear(m1, s, r.root, pa, n, vpn, w.slot);
  }

  lemma SameLookup(m: seq<Byte>, r: Regs, vpn: nat)
    requires Paged(m) && r.root % PAGE == 0 && r.vm.Paging? && Lookup(m, r, Store, vpn).Leaf?
    ensures Lookup(m, r, Load, vpn) == Lookup(m, r, Store, vpn)
  {
    hide WalkFrom, Canonical;
    StoreWalkLoads(m, r.vm.scheme, r.root, vpn, Levels(r.vm.scheme), ModeFor(r, Store) != User);
  }

  lemma LeafClear(m: seq<Byte>, s: Scheme, root: nat, a: nat, n: nat, vpn: nat, slot: nat)
    requires Paged(m) && root % PAGE == 0 && Clear(m, s, root, a, n) && Visits(m, s, root, vpn, Levels(s), slot)
    ensures !(a <= slot < a + n)
  {
    hide Visits;
  }

  /** A load of the bytes just stored gives those bytes, in every mode, scheme and width. */
  lemma LoadAfterStore(m: seq<Byte>, r: Regs, addr: nat, bytes: seq<Byte>)
    requires Paged(m) && |m| < WORD && r.root % PAGE == 0 && Formed(StoreOp(addr, bytes, false))
    requires Allowed(m, r, StoreOp(addr, bytes, false)) && PlainStep(m, r, StoreOp(addr, bytes, false)).2 == Done
    ensures PlainStep(PlainStep(m, r, StoreOp(addr, bytes, false)).0, r, LoadOp(addr, |bytes|, false)).2 == Data(bytes)
  {
    hide Clear, Translate, MemAfter;
    var vpn, pa := addr / PAGE, Translate(m, r, Store, addr);
    var m1 := MemAfter(m, r, Store, vpn);
    var m2 := WriteAt(m1, pa, bytes).0;
    WriteElsewhere(m1, pa, bytes);
    if ModeFor(r, Store) != Machine {
      StoredPlace(m, r, addr, |bytes|, m2);
    } else {
      BypassSame(m, m2, r, addr);
    }
    var m3 := MemAfter(m2, r, Load, vpn);
    assert Translate(m2, r, Load, addr) == pa;
    assert m3[pa..pa + |bytes|] == bytes;
  }

  lemma BypassSame(m: seq<Byte>, m2: seq<Byte>, r: Regs, addr: nat)
    requires Paged(m) && |m2| == |m| && r.root % PAGE == 0 && ModeFor(r, Store) == Machine
    ensures Translate(m2, r, Load, addr) == Translate(m, r, Store, addr) && MemAfter(m2, r, Load, addr / PAGE) == m2
  {
  }
}
