/** processor_t::decode_insn: a move-to-front list behind a direct-mapped cache. */
module Decoder {
  import opened DecodeList
  import opened Patterns
  import opened Rotation

  const CACHE_SIZE: nat := 8191

  function Slot(w: Bits): (k: nat)
    ensures k < CACHE_SIZE
  {
    (w as int) % CACHE_SIZE
  }

  /** What build_opcode_map fills the cache with; it looks like a decoded word 1. */
  const SEED := Desc(1, 0, IllegalInstruction, IllegalInstruction)

  // --------------------------------------------------------- decoding on values

  datatype Machine = Machine(list: seq<Desc>, cache: seq<Desc>)

  predicate Shaped(m: Machine) { Total(m.list) && |m.cache| == CACHE_SIZE }

  /** The state build_opcode_map leaves. */
  function Built(L0: seq<Desc>): Machine {
    Machine(L0, seq(CACHE_SIZE, k => SEED))
  }

  function Decode(m: Machine, w: Bits): (Machine, Desc)
    requires Shaped(m)
  {
    var cached := m.cache[Slot(w)];
    if w == cached.match_ then (m, cached)
    else
      var found := m.list[Search(m.list, w)];
      (Machine(Reordered(m.list, w), m.cache[Slot(w) := found.(match_ := w)]), found)
  }

  /** Decoding the words one after another. */
  ghost function Run(L0: seq<Desc>, ws: seq<Bits>): (m: Machine)
    requires Total(L0)
    ensures Shaped(m)
  {
    if ws == [] then Built(L0)
    else
      var m := Run(L0, ws[..|ws| - 1]);
      ReorderedTotal(m.list, ws[|ws| - 1]);
      Decode(m, ws[|ws| - 1]).0
  }

  lemma ReorderedTotal(L: seq<Desc>, w: Bits)
    requires Total(L)
    ensures Total(Reordered(L, w))
  {
    hide Search, ToFront, Matches;
  }

  ghost predicate Over(ws: seq<Bits>, W: iset<Bits>) {
    forall k | 0 <= k < |ws| :: ws[k] in W
  }

  /** Every filled slot holds a word's answer from the sorted list. */
  ghost predicate CacheAgrees(L0: seq<Desc>, W: iset<Bits>, xlen64: bool, cache: seq<Desc>)
    requires Total(L0)
  {
    forall k | 0 <= k < |cache| ::
      cache[k] == SEED || (cache[k].match_ in W && cache[k].Fn(xlen64) == L0[Search(L0, cache[k].match_)].Fn(xlen64))
  }

  /** The invariant of every run: the list is a rearrangement of the sorted one, and
      the cache only ever holds the sorted list's answers. */
  lemma {:induction false} RunKeeps(L0: seq<Desc>, W: iset<Bits>, xlen64: bool, ws: seq<Bits>)
    requires Total(L0) && Stable(L0, W, xlen64) && Over(ws, W)
    ensures var m := Run(L0, ws); Reachable(L0, W, m.list) && CacheAgrees(L0, W, xlen64, m.cache)
  {
    hide Reachable, Stable, Reordered, Search;
    if ws == [] {
      StartsReachable(L0, W);
    } else {
      var w := ws[|ws| - 1];
      var m := Run(L0, ws[..|ws| - 1]);
      RunKeeps(L0, W, xlen64, ws[..|ws| - 1]);
      StaysReachable(L0, W, m.list, w);
      SameHandler(L0, W, m.list, w, xlen64);
    }
  }

  /** The decoded handler. */
  ghost function Decoded(L0: seq<Desc>, ws: seq<Bits>, w: Bits, xlen64: bool): Handler
    requires Total(L0)
  {
    Decode(Run(L0, ws), w).1.Fn(xlen64)
  }

  /** The handler a linear search of the sorted list finds. */
  function Searched(L0: seq<Desc>, w: Bits, xlen64: bool): Handler
    requires Total(L0)
  {
    L0[Search(L0, w)].Fn(xlen64)
  }

  /** The entry a linear search stops at: the first whose pattern the word agrees with. */
  ghost predicate First(L0: seq<Desc>, w: Bits, i: nat) {
    && i < |L0| && Agrees(w, L0[i].match_, L0[i].mask)
    && forall k | 0 <= k < i :: !Agrees(w, L0[k].match_, L0[k].mask)
  }

  /** Its handler of the register width is the answer. */
  lemma SearchedExactly(L0: seq<Desc>, w: Bits, i: nat)
    requires Total(L0) && First(L0, w, i)
    ensures Searched(L0, w, true) == L0[i].rv64 && Searched(L0, w, false) == L0[i].rv32
  {
    hide Masked, Agrees;
    var j := Search(L0, w);
    MaskedAgrees(w, L0[i].match_, L0[i].mask);
    MaskedAgrees(w, L0[j].match_, L0[j].mask);
  }

  /** Some other word has been decoded in the slot of word 1: the seed is gone. */
  ghost predicate Displaced(ws: seq<Bits>) {
    exists k :: 0 <= k < |ws| && ws[k] != 1 && Slot(ws[k]) == Slot(1)
  }

  lemma DisplacedNext(ws: seq<Bits>, w: Bits)
    ensures Displaced(ws + [w]) <==> Displaced(ws) || (w != 1 && Slot(w) == Slot(1))
  {
    hide Slot;
    var all := ws + [w];
    assert all[|ws|] == w;
    if Displaced(ws) {
      var k :| 0 <= k < |ws| && ws[k] != 1 && Slot(ws[k]) == Slot(1);
      assert all[k] == ws[k];
    }
  }

  /** The slot of word 1 holds the seed until it is displaced, and from then on takes
      word 1 only with the sorted list's answer. */
  lemma {:induction false} SeedSlot(L0: seq<Desc>, W: iset<Bits>, xlen64: bool, ws: seq<Bits>)
    requires Total(L0) && Stable(L0, W, xlen64) && Over(ws, W)
    ensures var seeded := Run(L0, ws).cache[Slot(1)];
            if Displaced(ws) then seeded.match_ == 1 ==> seeded.Fn(xlen64) == Searched(L0, 1, xlen64) else seeded == SEED
  {
    hide Reachable, Stable, Reordered, Search, Slot;
    if ws != [] {
      var g, w := ws[..|ws| - 1], ws[|ws| - 1];
      SeedSlot(L0, W, xlen64, g);
      assert g + [w] == ws;
      DisplacedNext(g, w);
      RunKeeps(L0, W, xlen64, g);
      SameHandler(L0, W, Run(L0, g).list, w, xlen64);
    }
  }

  /** What a word decodes to after a run: the sorted list's answer, but for word 1 as
      long as the seed still passes for it. */
  ghost function HandlerAfter(L0: seq<Desc>, ws: seq<Bits>, w: Bits, xlen64: bool): Handler
    requires Total(L0)
  {
    if w == 1 && !Displaced(ws) then IllegalInstruction else Searched(L0, w, xlen64)
  }

  /** The answer to every word after every run. */
  lemma DecodesExactly(L0: seq<Desc>, W: iset<Bits>, xlen64: bool, ws: seq<Bits>, w: Bits)
    requires Total(L0) && Stable(L0, W, xlen64) && Over(ws, W) && w in W
    ensures Decoded(L0, ws, w, xlen64) == HandlerAfter(L0, ws, w, xlen64)
  {
    hide Reachable, Stable, Reordered, Search, Slot, Displaced;
    RunKeeps(L0, W, xlen64, ws);
    SeedSlot(L0, W, xlen64, ws);
    SameHandler(L0, W, Run(L0, ws).list, w, xlen64);
  }

  /** After any run, every word but 1 decodes as the sorted list says. */
  lemma DecodesAsSearched(L0: seq<Desc>, W: iset<Bits>, xlen64: bool, ws: seq<Bits>, w: Bits)
    requires Total(L0) && Stable(L0, W, xlen64) && Over(ws, W) && w in W && w != 1
    ensures Decoded(L0, ws, w, xlen64) == Searched(L0, w, xlen64)
  {
    hide Stable, Decoded, Searched, Displaced;
    DecodesExactly(L0, W, xlen64, ws, w);
  }

  /** The word 1 decodes as the sorted list says if and only if the list has it illegal
      or some other word has been decoded in its slot. */
  lemma SeedShadowsWordOne(L0: seq<Desc>, W: iset<Bits>, xlen64: bool, ws: seq<Bits>)
    requires Total(L0) && Stable(L0, W, xlen64) && Over(ws, W) && 1 in W
    ensures Decoded(L0, ws, 1, xlen64) == Searched(L0, 1, xlen64) <==>
            Searched(L0, 1, xlen64) == IllegalInstruction
            || exists k :: 0 <= k < |ws| && ws[k] != 1 && Number(ws[k]) % 8191 == 1
  {
    hide Stable, Decoded, Searched, Slot, Number;
    DecodesExactly(L0, W, xlen64, ws, 1);
    forall k | 0 <= k < |ws| ensures Slot(ws[k]) == Slot(1) <==> Number(ws[k]) % 8191 == 1 { WithOne(ws[k]); }
  }

  function Number(w: Bits): nat { w as int }

  lemma WithOne(w: Bits)
    ensures Slot(w) == Slot(1) <==> Number(w) % 8191 == 1
  {
  }

  /** The result for the instruction tables the decoder is built for: sorted, with
      patterns that overlap only inside a match value. */
  lemma DecoderRefinesLinearSearch(L0: seq<Desc>, xlen64: bool, ws: seq<Bits>, w: Bits)
    requires Total(L0) && Sorted(L0) && Compatible(L0)
    ensures Decoded(L0, ws, w, xlen64) == HandlerAfter(L0, ws, w, xlen64)
  {
    hide Stable, Sorted, Compatible, HandlerAfter, Decoded;
    var used := iset x | x in ws + [w];
    assert w in ws + [w];
    CompatibleIsStable(L0, used, xlen64);
    DecodesExactly(L0, used, xlen64, ws, w);
  }

  /** Moving one entry ahead of an earlier match is visible to the next search. */
  lemma MoveShows(L0: seq<Desc>, xlen64: bool, i: nat, w': Bits, w: Bits)
    requires Total(L0) && i < |L0| && L0[i].mask != 0 && Single(L0, i) && Search(L0, w') == i
    requires Matches(L0[i], w) && w != 1 && w' != 1
    requires L0[i].Fn(xlen64) != Searched(L0, w, xlen64)
    ensures Decoded(L0, [w'], w, xlen64) != Searched(L0, w, xlen64)
  {
    var m0 := Run(L0, []);
    assert [w'][..0] == [];
    assert m0.cache[Slot(w')] == SEED;
    assert w != w';
    assert Search(L0, w) < i;
    assert Moves(L0, i);
    var m := Run(L0, [w']);
    assert m == Decode(m0, w').0;
    assert m.list[0] == L0[i];
    assert Search(m.list, w) == 0;
    assert m.cache[Slot(w)].match_ != w;
  }

  /** Stability is exactly what it takes, for runs that stay clear of the seed. */
  lemma StableExactly(L0: seq<Desc>, W: iset<Bits>, xlen64: bool)
    requires Total(L0) && 1 !in W
    ensures Stable(L0, W, xlen64) <==>
            forall ws: seq<Bits>, w | Over(ws, W) && w in W :: Decoded(L0, ws, w, xlen64) == Searched(L0, w, xlen64)
  {
    if Stable(L0, W, xlen64) {
      forall ws: seq<Bits>, w | Over(ws, W) && w in W
        ensures Decoded(L0, ws, w, xlen64) == Searched(L0, w, xlen64)
      {
        DecodesAsSearched(L0, W, xlen64, ws, w);
      }
    } else {
      var i: nat, w :| i < |L0| && Mobile(L0, W, i) && w in W && Matches(L0[i], w)
                       && L0[i].Fn(xlen64) != L0[Search(L0, w)].Fn(xlen64);
      var w' :| w' in W && Search(L0, w') == i;
      MoveShows(L0, xlen64, i, w', w);
      assert Over([w'], W);
    }
  }

  /** Entries that share a match value with a neighbour stay next to it, in order,
      through every run. */
  lemma GroupsStay(L0: seq<Desc>, W: iset<Bits>, xlen64: bool, ws: seq<Bits>, i: nat)
    requires Total(L0) && Stable(L0, W, xlen64) && Over(ws, W)
    requires i + 1 < |L0| && L0[i].match_ == L0[i + 1].match_
    ensures var L := Run(L0, ws).list;
            exists k :: 0 <= k && k + 1 < |L| && L[k] == L0[i] && L[k + 1] == L0[i + 1]
  {
    hide Run, Stable, Rearranged;
    RunKeeps(L0, W, xlen64, ws);
    var perm, front :| Rearranged(L0, W, Run(L0, ws).list, perm, front);
    GroupStays(L0, W, Run(L0, ws).list, perm, front, i);
  }

  lemma GroupStays(L0: seq<Desc>, W: iset<Bits>, L: seq<Desc>, perm: seq<nat>, front: nat, i: nat)
    requires Total(L0) && Rearranged(L0, W, L, perm, front)
    requires i + 1 < |L0| && L0[i].match_ == L0[i + 1].match_
    ensures exists k :: 0 <= k && k + 1 < |L| && L[k] == L0[i] && L[k + 1] == L0[i + 1]
  {
    hide Mobile;
    StandsNext(L0, W, L, perm, front, i);
    var k :| 0 <= k && k + 1 < |perm| && perm[k] == i && perm[k + 1] == i + 1;
    assert L[k] == L0[i] && L[k + 1] == L0[i + 1];
  }

  // ------------------------------------------------------------ the decoder itself

  class Processor {
    const instructions: array<Desc>
    const opcodeCache: array<Desc>
    const xlen64: bool

    ghost predicate Valid()
      reads this, instructions
    {
      Total(instructions[..]) && opcodeCache.Length == CACHE_SIZE && instructions != opcodeCache
    }

    ghost function State(): Machine
      reads this, instructions, opcodeCache
    {
      Machine(instructions[..], opcodeCache[..])
    }

    /** The state after build_opcode_map, for a table std::sort has put in order. */
    constructor (table: seq<Desc>, xlen64: bool)
      requires Total(table)
      ensures Valid() && State() == Built(table) && this.xlen64 == xlen64 && fresh(instructions) && fresh(opcodeCache)
    {
      instructions := new Desc[|table|](i requires 0 <= i < |table| => table[i]);
      opcodeCache := new Desc[CACHE_SIZE](i => SEED);
      this.xlen64 := xlen64;
      new;
      assert instructions[..] == table;
      assert opcodeCache[..] == seq(CACHE_SIZE, k => SEED);
    }

    /** The linear search; the catch-all stops it. */
    method Find(insn: Bits, ghost L: seq<Desc>) returns (p: nat)
      requires Total(L) && |L| == instructions.Length && forall k | 0 <= k < |L| :: instructions[k] == L[k]
      ensures p == Search(L, insn)
    {
      hide Matches;
      ghost var last := |L| - 1;
      MatchesAll(L[last], insn);
      p := 0;
      while !Matches(instructions[p], insn)
        invariant p <= last
        invariant forall k | 0 <= k < p :: !Matches(L[k], insn)
        decreases last - p
      {
        p := p + 1;
      }
    }

    /** Shift the entries before p up by one and put the entry at p first. */
    method MoveToFront(p0: nat, ghost L: seq<Desc>)
      requires p0 < |L| == instructions.Length && forall k | 0 <= k < |L| :: instructions[k] == L[k]
      modifies instructions
      ensures forall k | 0 <= k < |L| :: instructions[k] == ToFront(L, p0)[k]
    {
      hide ToFront;
      var desc := instructions[p0];
      var p := p0;
      while p > 0
        invariant p <= p0
        invariant forall k | 0 <= k < p || p0 < k < |L| :: instructions[k] == L[k]
        invariant forall k | p < k <= p0 :: instructions[k] == L[k - 1]
      {
        p := p - 1;
        instructions[p + 1] := instructions[p];
      }
      instructions[0] := desc;
    }

    /** A miss in the opcode cache: search, and move what was found if nothing beside it
        shares its match value. */
    method SearchList(insn: Bits, ghost L: seq<Desc>) returns (desc: Desc)
      requires Total(L) && |L| == instructions.Length && forall k | 0 <= k < |L| :: instructions[k] == L[k]
      modifies instructions
      ensures desc == L[Search(L, insn)] && instructions[..] == Reordered(L, insn)
    {
      hide Search, Matches, ToFront;
      var p := Find(insn, L);
      desc := instructions[p];
      if desc.mask != 0 && p > 0 {
        if desc.match_ != instructions[p - 1].match_ && desc.match_ != instructions[p + 1].match_ {
          MoveToFront(p, L);
        }
      }
    }

    method DecodeInsn(insn: Bits) returns (h: Handler)
      requires Valid()
      modifies instructions, opcodeCache
      ensures Valid()
      ensures var r := Decode(old(State()), insn); State() == r.0 && h == r.1.Fn(xlen64)
      ensures var r := Decode(old(State()), insn); h == if xlen64 then r.1.rv64 else r.1.rv32
    {
      ghost var m := State();
      ReorderedTotal(m.list, insn);
      hide Search, Matches, ToFront, Slot, Reordered;
      var idx := Slot(insn);
      var desc := opcodeCache[idx];
      if insn != desc.match_ {
        desc := SearchList(insn, m.list);
        opcodeCache[idx] := desc;
        opcodeCache[idx] := desc.(match_ := insn);
        assert opcodeCache[..] == m.cache[idx := desc.(match_ := insn)];
      }
      h := if xlen64 then desc.rv64 else desc.rv32;
    }
  }
}
