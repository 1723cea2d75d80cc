/** cache_sim_t: one level of a write-back hierarchy, in front of its miss handler. */
module CacheSim {
  import opened Powers
  import opened CacheMap
  import opened TagStore

  const WORD: nat := 0x1_0000_0000_0000_0000

  ghost predicate IsPow2(n: nat) { exists k: nat :: n == Pow2(k) }

  /** What help() does not exit on, with the positive number of ways that victimize takes
      for granted: it divides by it. */
  ghost predicate GoodConfig(sets: nat, ways: nat, linesz: nat) {
    IsPow2(sets) && ways > 0 && IsPow2(linesz) && linesz >= 8
  }

  /** help() exits on smaller lines. */
  type LineSize = n: nat | n >= 8 witness 8

  /** addr >> idx_shift. */
  function LineOf(addr: nat, linesz: nat): (x: nat)
    requires linesz > 0
    ensures x * linesz <= addr < x * linesz + linesz
  {
    addr / linesz
  }

  /** addr & ~(linesz-1). */
  function LineBase(addr: nat, linesz: nat): (b: nat)
    requires linesz > 0
    ensures b == LineOf(addr, linesz) * linesz
  {
    assert addr == addr / linesz * linesz + addr % linesz;
    addr - addr % linesz
  }

  lemma LineFits(addr: nat, linesz: nat)
    requires linesz >= 8 && addr < WORD
    ensures LineOf(addr, linesz) < LINES
  {
    hide LineOf;
    var x := LineOf(addr, linesz);
    MulMonotone(x, 8, linesz);
  }

  /** The loop that counts idx_shift. */
  method ShiftOf(linesz: nat) returns (shift: nat)
    requires IsPow2(linesz)
    ensures linesz == Pow2(shift)
  {
    shift := 0;
    var x: nat := linesz;
    while x > 1
      invariant IsPow2(x) && x * Pow2(shift) == linesz
    {
      x := Halve(x, shift, linesz);
      shift := shift + 1;
    }
  }

  method Halve(x: nat, shift: nat, linesz: nat) returns (y: nat)
    requires x > 1 && IsPow2(x) && x * Pow2(shift) == linesz
    ensures y < x && IsPow2(y) && y * Pow2(shift + 1) == linesz
  {
    ghost var k: nat :| x == Pow2(k);
    assert x == 2 * Pow2(k - 1);
    y := x / 2;
    ghost var p := Pow2(shift);
    assert Pow2(shift + 1) == 2 * p;
    assert y * (2 * p) == (2 * y) * p;
  }

  /** What a level counts: accesses and bytes each way, write-backs, and misses. */
  datatype Counters = Counters(loads: nat, stores: nat, bytesRead: nat, bytesWritten: nat, backs: nat, misses: nat)

  /** The counters agree with the log, in which every request is for a whole line. */
  ghost predicate Balanced(log: seq<Event>, c: Counters, linesz: nat) {
    && c.loads == Ins(log, false, Accesses) && c.stores == Ins(log, true, Accesses)
    && c.bytesRead == Ins(log, false, Bytes) && c.bytesWritten == Ins(log, true, Bytes)
    && c.backs == Outs(log, true, Accesses) && c.misses == Outs(log, false, Accesses)
    && linesz * c.backs == Outs(log, true, Bytes) && linesz * c.misses == Outs(log, false, Bytes)
  }

  /** The part of Sends for the victim. */
  function WriteBack(m: map<nat, bool>, out: Evicted, linesz: nat): seq<Event> {
    if out.Line? && out.line in m && m[out.line] then [Out(out.line * linesz, true, linesz)] else []
  }

  lemma HitIs(s: State, t: State, x: nat, store: bool, bytes: nat, linesz: nat)
    requires x in s.lines && t.lines == s.lines[x := s.lines[x] || store] && t.log == s.log + [In(x, store, bytes)]
    ensures Step(s, t, x, store, bytes, linesz)
  {
  }

  lemma MissIs(s: State, t: State, g: seq<Event>, x: nat, store: bool, bytes: nat, linesz: nat, out: Evicted)
    requires x !in s.lines && g == s.log + [In(x, store, bytes)] && (out.Line? ==> out.line in s.lines)
    requires t.log == g + WriteBack(s.lines, out, linesz) + [Out(x * linesz, false, linesz)]
    requires t.lines == (if out.Line? then Removed(s.lines, out.line) else s.lines)[x := false][x := store]
    ensures Step(s, t, x, store, bytes, linesz) && t.log == g + Sends(s.lines, x, out, linesz)
  {
    hide Removed;
    assert Missed(s, t, x, store, bytes, linesz, out);
  }

  /** One more request for a line, of either kind. */
  lemma LineRequest(g: seq<Event>, e: Event, c: Counters, linesz: nat)
    requires Balanced(g, c, linesz) && e.Out? && e.bytes == linesz
    ensures Balanced(g + [e], if e.store then c.(backs := c.backs + 1) else c.(misses := c.misses + 1), linesz)
  {
    hide Ins, Outs;
    forall store: bool, unit: Unit
      ensures Ins(g + [e], store, unit) == Ins(g, store, unit)
      ensures Outs(g + [e], store, unit) == Outs(g, store, unit) + (if e.store == store then Weight(e, unit) else 0)
    {
      OneMore(g, e, store, unit);
    }
  }

  /** One more access to this level. */
  lemma AccessCounts(g: seq<Event>, e: Event, c: Counters, linesz: nat)
    requires Balanced(g, c, linesz) && e.In?
    ensures Balanced(g + [e], if e.store then c.(stores := c.stores + 1, bytesWritten := c.bytesWritten + e.bytes)
                              else c.(loads := c.loads + 1, bytesRead := c.bytesRead + e.bytes), linesz)
  {
    hide Ins, Outs;
    forall store: bool, unit: Unit
      ensures Ins(g + [e], store, unit) == Ins(g, store, unit) + (if e.store == store then Weight(e, unit) else 0)
      ensures Outs(g + [e], store, unit) == Outs(g, store, unit)
    {
      OneMore(g, e, store, unit);
    }
  }

  lemma SendsCount(g: seq<Event>, m: map<nat, bool>, x: nat, out: Evicted, linesz: nat, c: Counters)
    requires Balanced(g, c, linesz)
    ensures Balanced(g + Sends(m, x, out, linesz), c.(backs := c.backs + |WriteBack(m, out, linesz)|, misses := c.misses + 1), linesz)
  {
    hide Balanced;
    var read := Out(x * linesz, false, linesz);
    if WriteBack(m, out, linesz) != [] {
      var write := Out(out.line * linesz, true, linesz);
      LineRequest(g, write, c, linesz);
      LineRequest(g + [write], read, c.(backs := c.backs + 1), linesz);
      assert g + Sends(m, x, out, linesz) == g + [write] + [read];
    } else {
      LineRequest(g, read, c, linesz);
      assert Sends(m, x, out, linesz) == [read];
    }
  }

  lemma SendsReceived(g: seq<Event>, m: map<nat, bool>, x: nat, out: Evicted, linesz: nat)
    ensures Received(g + Sends(m, x, out, linesz)) == Received(g)
  {
    hide Received;
    var read := Out(x * linesz, false, linesz);
    if WriteBack(m, out, linesz) != [] {
      var write := Out(out.line * linesz, true, linesz);
      OneRequest(g, write, 1);
      OneRequest(g + [write], read, 1);
      assert g + Sends(m, x, out, linesz) == g + [write] + [read];
    } else {
      OneRequest(g, read, 1);
      assert Sends(m, x, out, linesz) == [read];
    }
  }

  /** Whatever else a step logs, it has received the one access. */
  lemma StepReceived(s: State, t: State, x: nat, store: bool, bytes: nat, linesz: nat)
    requires Step(s, t, x, store, bytes, linesz)
    ensures Received(t.log) == Received(s.log) + [In(x, store, bytes)]
  {
    hide Received, Sends, Removed;
    var g := s.log + [In(x, store, bytes)];
    OneRequest(s.log, In(x, store, bytes), 1);
    if x !in s.lines {
      var out: Evicted :| Missed(s, t, x, store, bytes, linesz, out);
      SendsReceived(g, s.lines, x, out, linesz);
    }
  }

  lemma RequestOf(e: Event, next: nat)
    requires next > 0
    ensures Requests([e], next) == if e.Out? then [In(e.addr / next, e.store, e.bytes)] else []
  {
    assert [e][..0] == [];
  }

  class CacheSim {
    const tags: Tags
    const linesz: LineSize
    const idxShift: nat
    var missHandler: CacheSim?
    var readAccesses: nat
    var readMisses: nat
    var bytesRead: nat
    var writeAccesses: nat
    var writeMisses: nat
    var bytesWritten: nat
    var writebacks: nat
    /** What was asked of this level and what it asked of the next. */
    ghost var log: seq<Event>
    /** Whether other caches have the same miss handler. */
    ghost var shared: bool
    ghost var Repr: set<object>

    ghost function Now(): State
      reads this, tags
    {
      State(tags.lines, log)
    }

    /** This level by itself. */
    ghost predicate Sound()
      reads this, tags, tags.tags
    {
      && tags.Valid() && linesz == Pow2(idxShift)
      && (forall x | x in tags.lines :: x * linesz < WORD)
      && NoneLost(Now(), linesz)
      && Balanced(log, Count(), linesz)
    }

    ghost function Count(): Counters
      reads this
    {
      Counters(readAccesses, writeAccesses, bytesRead, bytesWritten, writebacks, readMisses + writeMisses)
    }

    /** What the next level has received. */
    ghost function Behind(): seq<Event>
      reads this, missHandler
    {
      if missHandler == null then [] else Received(missHandler.log)
    }

    ghost function BehindRepr(): set<object>
      reads this, missHandler
    {
      if missHandler == null then {} else missHandler.Repr
    }

    /** What events of this level ask of the next. */
    ghost function Asked(events: seq<Event>): seq<Event>
      reads this
    {
      if missHandler == null then [] else Requests(events, missHandler.linesz)
    }

    /** The next level is apart from this one, and fed by it alone unless it is shared. */
    ghost predicate Linked()
      reads this, Repr
    {
      && this in Repr && tags in Repr && tags.tags in Repr
      && (missHandler != null ==>
        && missHandler in Repr && missHandler.Repr <= Repr
        && this !in missHandler.Repr && tags !in missHandler.Repr && tags.tags !in missHandler.Repr
        && (!shared ==> Behind() == Asked(log)))
    }

    ghost predicate Valid()
      reads this, Repr
      decreases Repr
    {
      Linked() && Sound() && (missHandler != null ==> missHandler.Valid())
    }

    constructor (sets: nat, ways: nat, linesz: nat)
      requires GoodConfig(sets, ways, linesz)
      ensures Valid() && fresh(Repr) && log == [] && this.linesz == linesz && missHandler == null && !shared
      ensures tags.fullyAssociative == (ways > 4 && sets == 1) && tags.sets == sets && tags.ways == ways
      ensures Count() == Counters(0, 0, 0, 0, 0, 0)
    {
      var t := new Tags(ways > 4 && sets == 1, sets, ways);
      var s := ShiftOf(linesz);
      tags, this.linesz, idxShift, missHandler := t, linesz, s, null;
      readAccesses, readMisses, bytesRead, writeAccesses, writeMisses, bytesWritten, writebacks := 0, 0, 0, 0, 0, 0, 0;
      log, shared := [], false;
      Repr := {this, t, t.tags};
      new;
      NothingYet(linesz);
    }

    /** A handler that is not shared has received nothing yet. */
    method SetMissHandler(mh: CacheSim, ghost sharing: bool)
      requires Valid() && mh.Valid() && log == [] && Repr !! mh.Repr && missHandler == null
      requires !sharing ==> Received(mh.log) == []
      modifies this
      ensures Valid() && missHandler == mh && Repr == old(Repr) + mh.Repr && log == [] && shared == sharing
      ensures Count() == old(Count())
    {
      missHandler, shared := mh, sharing;
      Repr := Repr + mh.Repr;
    }

    /** miss_handler->access, if there is one. */
    method Send(addr: nat, store: bool)
      requires Linked() && (missHandler != null ==> missHandler.Valid()) && addr < WORD
      modifies Repr
      ensures Linked() && (missHandler != null ==> missHandler.Valid()) && Repr == old(Repr) && log == old(log) + [Out(addr, store, linesz)]
      ensures missHandler == old(missHandler) && shared == old(shared) && BehindRepr() == old(BehindRepr())
      ensures Behind() == old(Behind()) + Asked([Out(addr, store, linesz)])
      ensures tags.lines == old(tags.lines) && (old(tags.Valid()) ==> tags.Valid())
      ensures readAccesses == old(readAccesses) && readMisses == old(readMisses) && bytesRead == old(bytesRead)
      ensures writeAccesses == old(writeAccesses) && writeMisses == old(writeMisses)
      ensures bytesWritten == old(bytesWritten) && writebacks == old(writebacks)
      decreases Repr, 0
    {
      hide Lists, Shows, NoneLost, Step, Ins, Outs, Requests, Received;
      ghost var e := Out(addr, store, linesz);
      if missHandler != null {
        ghost var s := missHandler.Now();
        OneRequest(log, e, missHandler.linesz);
        missHandler.Access(addr, linesz, store);
        StepReceived(s, missHandler.Now(), LineOf(addr, missHandler.linesz), store, linesz, missHandler.linesz);
        RequestOf(e, missHandler.linesz);
      }
      log := log + [e];
    }

    /** Make room for the missing line; write the victim back if it is dirty. */
    method Evict(line: nat) returns (ghost out: Evicted)
      requires Linked() && (missHandler != null ==> missHandler.Valid()) && line < LINES
      requires tags.Valid() && line !in tags.lines && forall x | x in tags.lines :: x * linesz < WORD
      modifies Repr
      ensures Linked() && (missHandler != null ==> missHandler.Valid()) && Repr == old(Repr)
      ensures missHandler == old(missHandler) && shared == old(shared) && BehindRepr() == old(BehindRepr())
      ensures Behind() == old(Behind()) + Asked(WriteBack(old(tags.lines), out, linesz))
      ensures tags.Valid() && (out.Line? ==> out.line in old(tags.lines))
      ensures tags.lines == (if out.Line? then Removed(old(tags.lines), out.line) else old(tags.lines))[line := false]
      ensures log == old(log) + WriteBack(old(tags.lines), out, linesz)
      ensures writebacks == old(writebacks) + |WriteBack(old(tags.lines), out, linesz)|
      ensures readAccesses == old(readAccesses) && readMisses == old(readMisses) && bytesRead == old(bytesRead)
      ensures writeAccesses == old(writeAccesses) && writeMisses == old(writeMisses) && bytesWritten == old(bytesWritten)
      decreases Repr, 2
    {
      hide Lists, Shows, Coded, Received, Removed, Asked, WriteBack, Tags.Valid;
      ghost var m := tags.lines;
      var victim;
      victim, out := tags.Victimize(line);
      WriteVictim(victim, m, out);
    }

    /** A victim's word sends its line base behind if and only if it is valid and dirty. */
    method WriteVictim(victim: nat, ghost m: map<nat, bool>, ghost out: Evicted)
      requires Linked() && (missHandler != null ==> missHandler.Valid())
      requires if out.Line? then out.line in m && out.line * linesz < WORD && out.line < LINES && victim == Coded(out.line, m[out.line]) else victim == 0
      modifies Repr
      ensures Linked() && (missHandler != null ==> missHandler.Valid()) && Repr == old(Repr)
      ensures missHandler == old(missHandler) && shared == old(shared) && BehindRepr() == old(BehindRepr())
      ensures Behind() == old(Behind()) + Asked(WriteBack(m, out, linesz))
      ensures tags.lines == old(tags.lines) && (old(tags.Valid()) ==> tags.Valid())
      ensures log == old(log) + WriteBack(m, out, linesz)
      ensures writebacks == old(writebacks) + |WriteBack(m, out, linesz)|
      ensures readAccesses == old(readAccesses) && readMisses == old(readMisses) && bytesRead == old(bytesRead)
      ensures writeAccesses == old(writeAccesses) && writeMisses == old(writeMisses) && bytesWritten == old(bytesWritten)
      decreases Repr, 1
    {
      hide Lists, Shows, LineBits, ValidAndDirty, Coded, Received, Tags.Valid;
      ZeroMeans();
      if out.Line? { CodedMeans(out.line, m[out.line]); }
      assert ValidAndDirty(victim) <==> WriteBack(m, out, linesz) != [];
      if ValidAndDirty(victim) {
        Send(LineBits(victim) * linesz, true);
        writebacks := writebacks + 1;
      }
    }

    /** Fetch the missing line, and mark it if storing: it is there by now. */
    method Fetch(addr: nat, line: nat, store: bool)
      requires Linked() && (missHandler != null ==> missHandler.Valid()) && addr < WORD
      requires tags.Valid() && line == LineOf(addr, linesz) && line in tags.lines && !tags.lines[line]
      modifies Repr
      ensures Linked() && (missHandler != null ==> missHandler.Valid()) && Repr == old(Repr)
      ensures missHandler == old(missHandler) && shared == old(shared) && BehindRepr() == old(BehindRepr())
      ensures Behind() == old(Behind()) + Asked([Out(LineBase(addr, linesz), false, linesz)])
      ensures tags.Valid() && tags.lines == old(tags.lines)[line := store]
      ensures log == old(log) + [Out(LineBase(addr, linesz), false, linesz)]
      ensures readAccesses == old(readAccesses) && readMisses == old(readMisses) && bytesRead == old(bytesRead)
      ensures writeAccesses == old(writeAccesses) && writeMisses == old(writeMisses) && bytesWritten == old(bytesWritten)
      ensures writebacks == old(writebacks)
      decreases Repr, 1
    {
      hide Lists, Shows, LineOf, LineBase, Requests, Received;
      LineFits(addr, linesz);
      Send(LineBase(addr, linesz), false);
      if store {
        var p := tags.CheckTag(line);
        assert p != Null;
        tags.MarkDirty(p, line);
      }
    }

    /** Counting an access. */
    method Note(line: nat, bytes: nat, store: bool)
      requires Linked()
      modifies this
      ensures Linked() && Repr == old(Repr) && missHandler == old(missHandler) && shared == old(shared)
      ensures log == old(log) + [In(line, store, bytes)]
      ensures bytesRead == old(bytesRead) + (if store then 0 else bytes) && bytesWritten == old(bytesWritten) + (if store then bytes else 0)
      ensures old(Balanced(log, Count(), linesz)) ==> Balanced(log, Count(), linesz)
      ensures readMisses == old(readMisses) && writeMisses == old(writeMisses) && writebacks == old(writebacks)
    {
      hide Lists, Shows, Balanced, Requests, Received;
      ghost var e, c := In(line, store, bytes), Count();
      if Balanced(log, c, linesz) { AccessCounts(log, e, c, linesz); }
      if missHandler != null { OneRequest(log, e, missHandler.linesz); }
      if store {
        writeAccesses, bytesWritten := writeAccesses + 1, bytesWritten + bytes;
      } else {
        readAccesses, bytesRead := readAccesses + 1, bytesRead + bytes;
      }
      log := log + [e];
    }

    lemma AskedMiss(x: nat, store: bool, bytes: nat, m: map<nat, bool>, out: Evicted)
      ensures Asked([In(x, store, bytes)]) == []
      ensures Asked([In(x, store, bytes)] + Sends(m, x, out, linesz)) == Asked(WriteBack(m, out, linesz)) + Asked([Out(x * linesz, false, linesz)])
    {
      hide Requests;
      if missHandler != null {
        var next := missHandler.linesz;
        RequestOf(In(x, store, bytes), next);
        RequestsAppend([In(x, store, bytes)], Sends(m, x, out, linesz), next);
        RequestsAppend(WriteBack(m, out, linesz), [Out(x * linesz, false, linesz)], next);
      }
    }

    method Access(addr: nat, bytes: nat, store: bool)
      requires Valid() && addr < WORD
      modifies Repr
      ensures Valid() && Repr == old(Repr) && missHandler == old(missHandler) && shared == old(shared) && BehindRepr() == old(BehindRepr())
      ensures Step(old(Now()), Now(), LineOf(addr, linesz), store, bytes, linesz)
      ensures old(log) <= log && Behind() == old(Behind()) + Asked(log[|old(log)|..])
      ensures bytesRead == old(bytesRead) + (if store then 0 else bytes) && bytesWritten == old(bytesWritten) + (if store then bytes else 0)
      ensures var miss := LineOf(addr, linesz) !in old(tags.lines);
        && readMisses == old(readMisses) + (if miss && !store then 1 else 0)
        && writeMisses == old(writeMisses) + (if miss && store then 1 else 0)
      decreases Repr, 4
    {
      hide Lists, Shows, NoneLost, LineOf, Requests, Received, Sends, WriteBack, Removed, Balanced, Step;
      var line := LineOf(addr, linesz);
      LineFits(addr, linesz);
      ghost var s := Now();
      Note(line, bytes, store);
      var hit := tags.CheckTag(line);
      if hit != Null {
        if store {
          tags.MarkDirty(hit, line);
        }
        assert tags.lines == s.lines[line := s.lines[line] || store];
        HitIs(s, Now(), line, store, bytes, linesz);
        AskedMiss(line, store, bytes, s.lines, Nothing);
        assert log[|s.log|..] == [In(line, store, bytes)];
      } else {
        Miss(addr, line, bytes, store, s);
      }
      StepKeepsStores(s, Now(), line, store, bytes, linesz);
    }

    /** The rest of an access that misses. */
    method Miss(addr: nat, line: nat, ghost bytes: nat, store: bool, ghost s: State)
      requires Linked() && (missHandler != null ==> missHandler.Valid()) && addr < WORD
      requires tags.Valid() && line == LineOf(addr, linesz) < LINES && line !in s.lines && forall x | x in tags.lines :: x * linesz < WORD
      requires tags.lines == s.lines && log == s.log + [In(line, store, bytes)]
      requires Balanced(log, Count(), linesz)
      modifies Repr
      ensures Linked() && (missHandler != null ==> missHandler.Valid()) && Repr == old(Repr)
      ensures missHandler == old(missHandler) && shared == old(shared) && BehindRepr() == old(BehindRepr())
      ensures tags.Valid() && Step(s, Now(), line, store, bytes, linesz) && forall x | x in tags.lines :: x * linesz < WORD
      ensures s.log <= log && Behind() == old(Behind()) + Asked(log[|s.log|..])
      ensures Balanced(log, Count(), linesz)
      ensures bytesRead == old(bytesRead) && bytesWritten == old(bytesWritten)
      ensures readMisses == old(readMisses) + (if store then 0 else 1) && writeMisses == old(writeMisses) + (if store then 1 else 0)
      decreases Repr, 3
    {
      hide Lists, Shows, LineOf, Requests, Received, Sends, WriteBack, Removed, Balanced, Step;
      ghost var g, c := log, Count();
      if store { writeMisses := writeMisses + 1; } else { readMisses := readMisses + 1; }
      ghost var out := Evict(line);
      Fetch(addr, line, store);
      MissIs(s, Now(), g, line, store, bytes, linesz, out);
      SendsCount(g, s.lines, line, out, linesz, c);
      AskedMiss(line, store, bytes, s.lines, out);
      assert log == s.log + ([In(line, store, bytes)] + Sends(s.lines, line, out, linesz));
      assert log[|s.log|..] == [In(line, store, bytes)] + Sends(s.lines, line, out, linesz);
    }

    lemma Parts()
      requires Valid()
      ensures Linked() && Sound() && (missHandler != null ==> missHandler.Valid())
    {
    }

    lemma Whole()
      requires Linked() && Sound() && (missHandler != null ==> missHandler.Valid())
      ensures Valid()
    {
    }

    /** The next level has seen one write of a line for each write-back and one read of a
        line for each miss. */
    lemma HandlerCounts()
      requires Valid() && missHandler != null && !shared
      ensures missHandler.writeAccesses == writebacks && missHandler.readAccesses == readMisses + writeMisses
      ensures missHandler.bytesWritten == linesz * missHandler.writeAccesses && missHandler.bytesRead == linesz * missHandler.readAccesses
    {
      forall store: bool, unit: Unit ensures Ins(missHandler.log, store, unit) == Outs(log, store, unit) {
        FedCounts(log, missHandler.log, missHandler.linesz, store, unit);
      }
    }
  }
}
