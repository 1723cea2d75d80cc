/** check_tag and victimize: where a cache keeps its tags, set-associative in an array
    or fully associative in an ordered map. */
module TagStore {
  import opened Powers
  import opened CacheMap

  const VALID: nat := 0x8000_0000_0000_0000
  const DIRTY: nat := 0x4000_0000_0000_0000

  /** Line numbers leave three bits free, because a line has at least eight bytes. */
  const LINES: nat := 0x2000_0000_0000_0000

  // ------------------------------------------------------------------- tag words

  function OrValid(t: nat): nat { if t / VALID % 2 == 1 then t else t + VALID }

  function OrDirty(t: nat): nat { if t / DIRTY % 2 == 1 then t else t + DIRTY }

  function WithoutDirty(t: nat): nat { if t / DIRTY % 2 == 1 then t - DIRTY else t }

  predicate ValidAndDirty(t: nat) { t / VALID % 2 == 1 && t / DIRTY % 2 == 1 }

  function LineBits(t: nat): nat { t % DIRTY }

  /** The tag word of a line. */
  function Coded(x: nat, dirty: bool): nat { x + VALID + if dirty then DIRTY else 0 }

  /** Line number, valid and dirty bit never run into each other. */
  lemma CodedMeans(x: nat, dirty: bool)
    requires x < LINES
    ensures var t := Coded(x, dirty);
      && WithoutDirty(t) == OrValid(x) == Coded(x, false) && OrDirty(t) == Coded(x, true)
      && (ValidAndDirty(t) <==> dirty) && LineBits(t) == x && t != 0
  {
  }

  lemma CodedInjective(x: nat, d: bool, y: nat, e: bool)
    requires x < LINES && y < LINES && Coded(x, d) == Coded(y, e)
    ensures x == y && d == e
  {
    CodedMeans(x, d);
    CodedMeans(y, e);
  }

  lemma ZeroMeans()
    ensures !ValidAndDirty(0) && WithoutDirty(0) == 0
  {
  }

  // ------------------------------------------------------------------ pseudo-random ways

  function NextReg(reg: bv32): bv32 {
    (reg >> 1) ^ (if reg & 1 == 1 then 0xd000_0001 else 0)
  }

  function RegValue(reg: bv32): nat { reg as nat }

  function BitAt(reg: bv32, k: bv32): bool
    requires k < 32
  {
    (reg >> k) & 1 == 1
  }

  /** Bit by bit the register shifts down, and its lowest bit is fed back to bits 0, 28, 30
      and 31: the taps of x^32 + x^31 + x^29 + x + 1. */
  lemma Taps(reg: bv32, k: bv32)
    requires k < 32
    ensures BitAt(NextReg(reg), k) == ((k < 31 && BitAt(reg, k + 1)) != ((k == 0 || k == 28 || k >= 30) && BitAt(reg, 0)))
  {
  }

  /** The register never gets stuck at zero, and no two values run together. */
  lemma RegRuns(a: bv32, b: bv32)
    ensures a != 0 ==> NextReg(a) != 0
    ensures NextReg(a) == NextReg(b) ==> a == b
  {
  }

  /** The way a register value picks. */
  function Pick(value: nat, ways: nat): (w: nat)
    requires ways > 0
    ensures w < ways
  {
    value % ways
  }

  /** Register values pick the ways in turn. */
  lemma PicksInTurn(value: nat, ways: nat)
    requires ways > 0
    ensures value < ways ==> Pick(value, ways) == value
    ensures Pick(value + ways, ways) == Pick(value, ways)
  {
    if value < ways { DivModUnique(0, value, ways); }
    DivModUnique(value / ways + 1, value % ways, ways);
  }

  lemma RegValueFits(reg: bv32)
    ensures RegValue(reg) < 0x1_0000_0000 && RegValue(reg) as bv32 == reg
  {
  }

  // ------------------------------------------------------------- set-associative tags

  /** The array tags shows the lines of m, each in its set at the slot where says. */
  ghost predicate Shows(tags: seq<nat>, m: map<nat, bool>, where_: map<nat, nat>, sets: nat, ways: nat)
    requires sets > 0
  {
    && |tags| == sets * ways && where_.Keys == m.Keys
    && (forall x | x in m :: SlotOk(tags, x, m[x], where_[x], sets, ways))
    && forall i | 0 <= i < |tags| && tags[i] != 0 :: Owned(tags, m, where_, i)
  }

  ghost predicate SlotOk(tags: seq<nat>, x: nat, dirty: bool, i: nat, sets: nat, ways: nat)
    requires sets > 0
  {
    x < LINES && x % sets * ways <= i < x % sets * ways + ways && i < |tags| && tags[i] == Coded(x, dirty)
  }

  ghost predicate Owned(tags: seq<nat>, m: map<nat, bool>, where_: map<nat, nat>, i: nat)
    requires i < |tags| && where_.Keys == m.Keys
  {
    exists x :: x in m && where_[x] == i
  }

  /** At the slot of a line, its tag word; at any other occupied slot, another's. */
  lemma SlotsOf(tags: seq<nat>, m: map<nat, bool>, where_: map<nat, nat>, sets: nat, ways: nat, i: nat, x: nat)
    requires sets > 0 && Shows(tags, m, where_, sets, ways) && i < |tags| && x < LINES
    ensures WithoutDirty(tags[i]) == OrValid(x) <==> x in m && where_[x] == i
  {
    hide WithoutDirty, OrValid, Coded;
    ZeroMeans();
    CodedMeans(x, false);
    if tags[i] != 0 {
      assert Owned(tags, m, where_, i);
      var y :| y in m && where_[y] == i;
      assert SlotOk(tags, y, m[y], i, sets, ways);
      CodedMeans(y, m[y]);
      if WithoutDirty(tags[i]) == OrValid(x) {
        CodedInjective(x, false, y, false);
      }
    }
    if x in m && where_[x] == i {
      assert SlotOk(tags, x, m[x], i, sets, ways);
      CodedMeans(x, m[x]);
    }
  }

  /** Overwriting slot i of its set with line x. */
  lemma Replaced(tags: seq<nat>, m: map<nat, bool>, where_: map<nat, nat>, sets: nat, ways: nat, i: nat, x: nat) returns (out: Evicted, where': map<nat, nat>)
    requires sets > 0 && Shows(tags, m, where_, sets, ways) && x < LINES && x !in m
    requires i < |tags| && x % sets * ways <= i < x % sets * ways + ways
    ensures out.Line? <==> tags[i] != 0
    ensures out.Line? ==> out.line in m && out.line < LINES && tags[i] == Coded(out.line, m[out.line])
    ensures Shows(tags[i := Coded(x, false)], (if out.Line? then Removed(m, out.line) else m)[x := false], where', sets, ways)
  {
    hide Coded;
    CodedMeans(x, false);
    out := Nothing;
    if tags[i] != 0 {
      assert Owned(tags, m, where_, i);
      var y :| y in m && where_[y] == i;
      assert SlotOk(tags, y, m[y], i, sets, ways);
      out := Line(y);
    }
    var m1 := if out.Line? then Removed(m, out.line) else m;
    where' := (map y | y in m1 :: where_[y])[x := i];
    var tags', m' := tags[i := Coded(x, false)], m1[x := false];
    forall y | y in m' ensures SlotOk(tags', y, m'[y], where'[y], sets, ways) {
      if y != x {
        assert SlotOk(tags, y, m[y], where_[y], sets, ways);
        if where_[y] == i {
          CodedMeans(y, m[y]);
          assert tags[i] != 0;
          Alone(tags, m, where_, sets, ways, y, out.line);
        }
      }
    }
    forall j | 0 <= j < |tags'| && tags'[j] != 0 ensures Owned(tags', m', where', j) {
      if j == i {
        assert x in m' && where'[x] == i;
      } else {
        assert Owned(tags, m, where_, j);
        var z :| z in m && where_[z] == j;
        assert z in m' && where'[z] == j;
      }
    }
  }

  lemma Alone(tags: seq<nat>, m: map<nat, bool>, where_: map<nat, nat>, sets: nat, ways: nat, x: nat, y: nat)
    requires sets > 0 && Shows(tags, m, where_, sets, ways) && x in m && y in m && where_[x] == where_[y]
    ensures x == y
  {
    hide Coded;
    assert SlotOk(tags, x, m[x], where_[x], sets, ways);
    assert SlotOk(tags, y, m[y], where_[y], sets, ways);
    CodedInjective(x, m[x], y, m[y]);
  }

  /** Setting the dirty bit of the slot of x. */
  lemma Dirtied(tags: seq<nat>, m: map<nat, bool>, where_: map<nat, nat>, sets: nat, ways: nat, x: nat)
    requires sets > 0 && Shows(tags, m, where_, sets, ways) && x in m
    ensures where_[x] < |tags| && Shows(tags[where_[x] := OrDirty(tags[where_[x]])], m[x := true], where_, sets, ways)
  {
    hide Coded, OrDirty;
    var i := where_[x];
    assert SlotOk(tags, x, m[x], i, sets, ways);
    CodedMeans(x, m[x]);
    CodedMeans(x, true);
    var tags', m' := tags[i := OrDirty(tags[i])], m[x := true];
    forall y | y in m' ensures SlotOk(tags', y, m'[y], where_[y], sets, ways) {
      assert SlotOk(tags, y, m[y], where_[y], sets, ways);
      if y != x && where_[y] == i {
        Alone(tags, m, where_, sets, ways, x, y);
      }
    }
    forall j | 0 <= j < |tags'| && tags'[j] != 0 ensures Owned(tags', m', where_, j) {
      assert Owned(tags, m, where_, j);
      var z :| z in m && where_[z] == j;
      assert z in m' && where_[z] == j;
    }
  }

  // ---------------------------------------------------------- fully associative tags

  /** The entries of a std::map, by rising key, show the lines of m. */
  ghost predicate Lists(es: seq<(nat, nat)>, m: map<nat, bool>) { Rises(es) && Correct(es, m) && Complete(es, m) }

  ghost predicate Rises(es: seq<(nat, nat)>) { forall i, j | 0 <= i < j < |es| :: es[i].0 < es[j].0 }

  ghost predicate Correct(es: seq<(nat, nat)>, m: map<nat, bool>) {
    forall i | 0 <= i < |es| :: EntryOk(es[i], m)
  }

  ghost predicate EntryOk(e: (nat, nat), m: map<nat, bool>) {
    e.0 in m && e.0 < LINES && e.1 == Coded(e.0, m[e.0])
  }

  ghost predicate Complete(es: seq<(nat, nat)>, m: map<nat, bool>) { forall x | x in m :: HasKey(es, x) }

  ghost predicate HasKey(es: seq<(nat, nat)>, x: nat) { exists i :: 0 <= i < |es| && es[i].0 == x }

  /** The first position whose key is not below x. */
  function LowerBound(es: seq<(nat, nat)>, x: nat): (p: nat)
    ensures p <= |es| && (forall i | 0 <= i < p :: es[i].0 < x) && (p < |es| ==> es[p].0 >= x)
  {
    if es == [] || es[0].0 >= x then 0 else 1 + LowerBound(es[1..], x)
  }

  function Inserted(es: seq<(nat, nat)>, x: nat, t: nat): seq<(nat, nat)> {
    InsertedAt(es, LowerBound(es, x), (x, t))
  }

  lemma FindsKey(es: seq<(nat, nat)>, m: map<nat, bool>, x: nat)
    requires Lists(es, m)
    ensures var p := LowerBound(es, x); x in m <==> p < |es| && es[p].0 == x
  {
    hide LowerBound, Coded, Rises;
    var p := LowerBound(es, x);
    if x in m {
      assert HasKey(es, x);
      var i :| 0 <= i < |es| && es[i].0 == x;
      RisesTo(es, p, i);
    } else if p < |es| {
      assert EntryOk(es[p], m);
    }
  }

  lemma RisesTo(es: seq<(nat, nat)>, p: nat, i: nat)
    requires Rises(es) && p <= i < |es|
    ensures es[p].0 <= es[i].0
  {
  }

  function Erased(es: seq<(nat, nat)>, k: nat): (r: seq<(nat, nat)>)
    requires k < |es|
    ensures |r| == |es| - 1 && forall i | 0 <= i < |r| :: r[i] == es[if i < k then i else i + 1]
  {
    es[..k] + es[k + 1..]
  }

  lemma EraseRises(es: seq<(nat, nat)>, k: nat)
    requires Rises(es) && k < |es|
    ensures Rises(Erased(es, k)) && forall i | 0 <= i < |es| - 1 :: Erased(es, k)[i].0 != es[k].0
  {
  }

  lemma EraseLists(es: seq<(nat, nat)>, m: map<nat, bool>, k: nat)
    requires Lists(es, m) && k < |es|
    ensures Lists(Erased(es, k), Removed(m, es[k].0))
  {
    hide Coded, Rises;
    var es', m' := Erased(es, k), Removed(m, es[k].0);
    EraseRises(es, k);
    forall i | 0 <= i < |es'| ensures EntryOk(es'[i], m') {
      assert EntryOk(es[if i < k then i else i + 1], m);
    }
    forall x | x in m' ensures HasKey(es', x) {
      assert HasKey(es, x);
      var i :| 0 <= i < |es| && es[i].0 == x;
      assert es'[if i < k then i else i - 1].0 == x;
    }
  }

  function InsertedAt(es: seq<(nat, nat)>, p: nat, e: (nat, nat)): (r: seq<(nat, nat)>)
    requires p <= |es|
    ensures |r| == |es| + 1 && r[p] == e && forall i | 0 <= i < |r| && i != p :: r[i] == es[if i < p then i else i - 1]
  {
    es[..p] + [e] + es[p..]
  }

  lemma InsertRises(es: seq<(nat, nat)>, p: nat, e: (nat, nat))
    requires Rises(es) && p <= |es| && (forall i | 0 <= i < p :: es[i].0 < e.0) && (p < |es| ==> es[p].0 > e.0)
    ensures Rises(InsertedAt(es, p, e))
  {
    forall i | p <= i < |es| ensures es[i].0 > e.0 {
      assert es[p].0 <= es[i].0;
    }
  }

  lemma InsertLists(es: seq<(nat, nat)>, m: map<nat, bool>, x: nat)
    requires Lists(es, m) && x !in m && x < LINES
    ensures Lists(Inserted(es, x, Coded(x, false)), m[x := false])
  {
    hide Coded, LowerBound, Rises;
    var p, e := LowerBound(es, x), (x, Coded(x, false));
    FindsKey(es, m, x);
    InsertRises(es, p, e);
    var es', m' := InsertedAt(es, p, e), m[x := false];
    forall i | 0 <= i < |es'| ensures EntryOk(es'[i], m') {
      if i != p {
        assert EntryOk(es[if i < p then i else i - 1], m);
      }
    }
    forall y | y in m' ensures HasKey(es', y) {
      if y == x {
        assert es'[p].0 == x;
      } else {
        assert HasKey(es, y);
        var i :| 0 <= i < |es| && es[i].0 == y;
        assert es'[if i < p then i else i + 1].0 == y;
      }
    }
  }

  lemma DirtyLists(es: seq<(nat, nat)>, m: map<nat, bool>, k: nat)
    requires Lists(es, m) && k < |es|
    ensures Lists(es[k := (es[k].0, OrDirty(es[k].1))], m[es[k].0 := true])
  {
    hide Coded, OrDirty;
    assert EntryOk(es[k], m);
    CodedMeans(es[k].0, m[es[k].0]);
    CodedMeans(es[k].0, true);
    var es', m' := es[k := (es[k].0, OrDirty(es[k].1))], m[es[k].0 := true];
    forall i | 0 <= i < |es'| ensures EntryOk(es'[i], m') {
      assert EntryOk(es[i], m);
    }
    forall y | y in m' ensures HasKey(es', y) {
      assert HasKey(es, y);
      var i :| 0 <= i < |es| && es[i].0 == y;
      assert es'[i].0 == y;
    }
  }

  // --------------------------------------------------------------------- the objects

  /** Where check_tag points: a way of the array, an entry of the map, or nowhere. */
  datatype Place = Null | Way(i: nat) | Entry(k: nat)

  /** The tags of cache_sim_t, or of fa_cache_sim_t when fullyAssociative. */
  class Tags {
    const fullyAssociative: bool
    const sets: nat
    const ways: nat
    const tags: array<nat>
    var entries: seq<(nat, nat)>
    var reg: bv32
    /** The lines held, with their dirty bits, and the slots of the array. */
    ghost var lines: map<nat, bool>
    ghost var where_: map<nat, nat>

    ghost predicate Valid()
      reads this, tags
    {
      sets > 0 && ways > 0 &&
      if fullyAssociative then |entries| <= ways && Lists(entries, lines)
      else Shows(tags[..], lines, where_, sets, ways)
    }

    constructor (fullyAssociative: bool, sets: nat, ways: nat)
      requires sets > 0 && ways > 0
      ensures Valid() && lines == map[] && fresh(tags)
      ensures this.fullyAssociative == fullyAssociative && this.sets == sets && this.ways == ways && reg == 1
    {
      this.fullyAssociative, this.sets, this.ways := fullyAssociative, sets, ways;
      tags := new nat[sets * ways](i => 0);
      entries, reg, lines, where_ := [], 1, map[], map[];
    }

    /** Whether the place is that of line x. */
    ghost predicate At(p: Place, x: nat)
      reads this, tags
    {
      match p
      case Null => x !in lines
      case Way(i) => !fullyAssociative && x in lines && x in where_ && where_[x] == i
      case Entry(k) => fullyAssociative && x in lines && k < |entries| && entries[k].0 == x
    }

    method CheckTag(x: nat) returns (p: Place)
      requires Valid() && x < LINES
      ensures At(p, x)
    {
      hide Lists, Shows, OrValid, WithoutDirty;
      if fullyAssociative {
        FindsKey(entries, lines, x);
        var k := LowerBound(entries, x);
        return if k < |entries| && entries[k].0 == x then Entry(k) else Null;
      }
      var w := FindWay(x, tags[..]);
      p := if w < tags.Length then Way(w) else Null;
    }

    /** The loop over the ways of a set; the length of the array if the line is absent. */
    method FindWay(x: nat, ghost s: seq<nat>) returns (i: nat)
      requires sets > 0 && Shows(s, lines, where_, sets, ways) && x < LINES
      requires |s| == tags.Length && forall j | 0 <= j < |s| :: tags[j] == s[j]
      ensures if x in lines then i < |s| && x in where_ && where_[x] == i else i == |s|
    {
      hide Shows, OrValid, WithoutDirty;
      BaseFits(s, lines, where_, sets, ways, x);
      var base, tag := x % sets * ways, OrValid(x);
      i := base;
      while i < base + ways
        invariant base <= i <= base + ways <= |s| && forall j | base <= j < i :: WithoutDirty(s[j]) != tag
      {
        if WithoutDirty(tags[i]) == tag {
          SlotsOf(s, lines, where_, sets, ways, i, x);
          OwnSlot(s, lines, where_, sets, ways, x);
          return;
        }
        i := i + 1;
      }
      if x in lines {
        OwnSlot(s, lines, where_, sets, ways, x);
        SlotsOf(s, lines, where_, sets, ways, where_[x], x);
        assert false;
      }
      i := tags.Length;
    }

    /** *p |= DIRTY. */
    method MarkDirty(p: Place, ghost x: nat)
      requires Valid() && p != Null && At(p, x)
      modifies this`entries, this`lines, tags
      ensures Valid() && lines == old(lines)[x := true]
    {
      hide Lists, Shows, OrDirty;
      match p {
      case Way(i) =>
        ghost var s := tags[..];
        Dirtied(s, lines, where_, sets, ways, x);
        tags[i] := OrDirty(tags[i]);
        assert tags[..] == s[i := OrDirty(s[i])];
      case Entry(k) =>
        DirtyLists(entries, lines, k);
        entries := entries[k := (entries[k].0, OrDirty(entries[k].1))];
      }
      lines := lines[x := true];
    }

    /** victimize: make room for line x and enter it clean; the old tag word, or 0. */
    method Victimize(x: nat) returns (victim: nat, ghost out: Evicted)
      requires Valid() && x < LINES && x !in lines
      modifies this`entries, this`reg, this`lines, this`where_, tags
      ensures Valid() && lines == (if out.Line? then Removed(old(lines), out.line) else old(lines))[x := false]
      ensures if out.Line? then out.line in old(lines) && out.line < LINES && victim == Coded(out.line, old(lines)[out.line]) else victim == 0
      ensures reg == (if fullyAssociative && |old(entries)| < ways then old(reg) else NextReg(old(reg)))
      ensures if fullyAssociative
              then victim == (if |old(entries)| < ways then 0 else old(entries)[Pick(RegValue(reg), ways)].1)
              else var i := x % sets * ways + Pick(RegValue(reg), ways);
                i < tags.Length && victim == old(tags[..])[i] && tags[..] == old(tags[..])[i := Coded(x, false)]
    {
      hide Lists, Shows, OrValid, Removed, RegValue, NextReg, Pick, Coded;
      CodedMeans(x, false);
      if fullyAssociative {
        victim, out := VictimEntry();
        InsertLists(entries, lines, x);
        entries := Inserted(entries, x, OrValid(x));
        lines := lines[x := false];
      } else {
        reg := NextReg(reg);
        var way := Pick(RegValue(reg), ways);
        ghost var s := tags[..];
        BaseFits(s, lines, where_, sets, ways, x);
        var i := x % sets * ways + way;
        ghost var w;
        out, w := Replaced(s, lines, where_, sets, ways, i, x);
        victim := tags[i];
        tags[i] := OrValid(x);
        assert tags[..] == s[i := Coded(x, false)];
        where_ := w;
        lines := (if out.Line? then Removed(lines, out.line) else lines)[x := false];
      }
    }

    /** In the map: take out the entry lfsr picks, if it is full. */
    method VictimEntry() returns (victim: nat, ghost out: Evicted)
      requires Valid() && fullyAssociative
      modifies this`entries, this`reg, this`lines
      ensures fullyAssociative && |entries| < ways && Lists(entries, lines)
      ensures lines == if out.Line? then Removed(old(lines), out.line) else old(lines)
      ensures if out.Line? then out.line in old(lines) && out.line < LINES && victim == Coded(out.line, old(lines)[out.line]) else victim == 0
      ensures reg == (if |old(entries)| < ways then old(reg) else NextReg(old(reg)))
      ensures victim == (if |old(entries)| < ways then 0 else old(entries)[Pick(RegValue(reg), ways)].1)
    {
      hide Removed, RegValue, NextReg, Pick, Coded, Rises, Complete;
      victim, out := 0, Nothing;
      if |entries| == ways {
        reg := NextReg(reg);
        var k := Pick(RegValue(reg), ways);
        EraseLists(entries, lines, k);
        assert EntryOk(entries[k], lines);
        victim, out := entries[k].1, Line(entries[k].0);
        lines := Removed(lines, entries[k].0);
        entries := Erased(entries, k);
      }
    }
  }

  lemma BaseFits(tags: seq<nat>, m: map<nat, bool>, where_: map<nat, nat>, sets: nat, ways: nat, x: nat)
    requires sets > 0 && Shows(tags, m, where_, sets, ways)
    ensures x % sets * ways + ways <= |tags|
  {
    var k := x % sets;
    MulMonotone(ways, k + 1, sets);
    assert (k + 1) * ways == k * ways + ways;
  }

  lemma OwnSlot(tags: seq<nat>, m: map<nat, bool>, where_: map<nat, nat>, sets: nat, ways: nat, x: nat)
    requires sets > 0 && Shows(tags, m, where_, sets, ways) && x in m
    ensures x in where_ && x % sets * ways <= where_[x] < x % sets * ways + ways && where_[x] < |tags|
  {
    assert SlotOk(tags, x, m[x], where_[x], sets, ways);
  }

  // ---------------------------------------------------------------------- capacity

  /** The lines of one set. */
  ghost function SetLines(m: map<nat, bool>, sets: nat, k: nat): set<nat>
    requires sets > 0
  {
    set x | x in m && x % sets == k
  }

  function Slots(base: nat, n: nat): (r: set<nat>)
    ensures |r| == n && forall i :: i in r <==> base <= i < base + n
  {
    if n == 0 then {} else Slots(base, n - 1) + {base + n - 1}
  }

  lemma {:induction false} Injected(S: set<nat>, where_: map<nat, nat>, T: set<nat>)
    requires forall x | x in S :: x in where_ && where_[x] in T
    requires forall x, y | x in S && y in S && where_[x] == where_[y] :: x == y
    ensures |S| <= |T|
  {
    if S != {} {
      var x :| x in S;
      Injected(S - {x}, where_, T - {where_[x]});
    }
  }

  /** No set holds more lines than it has ways. */
  lemma SetCapacity(tags: seq<nat>, m: map<nat, bool>, where_: map<nat, nat>, sets: nat, ways: nat, k: nat)
    requires sets > 0 && Shows(tags, m, where_, sets, ways)
    ensures |SetLines(m, sets, k)| <= ways
  {
    hide Shows, SlotOk;
    var S := SetLines(m, sets, k);
    forall x | x in S ensures x in where_ && where_[x] in Slots(k * ways, ways) {
      OwnSlot(tags, m, where_, sets, ways, x);
    }
    forall x, y | x in S && y in S && where_[x] == where_[y] ensures x == y {
      Alone(tags, m, where_, sets, ways, x, y);
    }
    Injected(S, where_, Slots(k * ways, ways));
  }

  function KeysOf(es: seq<(nat, nat)>): (r: seq<nat>)
    ensures |r| == |es| && forall i | 0 <= i < |r| :: r[i] == es[i].0
  {
    seq(|es|, i requires 0 <= i < |es| => es[i].0)
  }

  lemma KeysAreLines(es: seq<(nat, nat)>, m: map<nat, bool>, x: nat)
    requires Lists(es, m)
    ensures x in m <==> x in KeysOf(es)
  {
    hide Rises, Coded;
    if x in m {
      assert HasKey(es, x);
      var i :| 0 <= i < |es| && es[i].0 == x;
      assert KeysOf(es)[i] == x;
    }
    if x in KeysOf(es) {
      var i :| 0 <= i < |es| && KeysOf(es)[i] == x;
      assert EntryOk(es[i], m);
    }
  }

  /** Nor does the map hold more lines than entries. */
  lemma MapCapacity(es: seq<(nat, nat)>, m: map<nat, bool>)
    requires Lists(es, m)
    ensures |m| == |es|
  {
    hide Lists, KeysOf, Elements;
    var keys := KeysOf(es);
    KeysRise(es, m);
    RisingCount(keys);
    forall x: nat ensures x in m <==> x in keys { KeysAreLines(es, m, x); }
    assert m.Keys == Elements(keys);
  }

  lemma KeysRise(es: seq<(nat, nat)>, m: map<nat, bool>)
    requires Lists(es, m)
    ensures forall i, j | 0 <= i < j < |es| :: KeysOf(es)[i] < KeysOf(es)[j]
  {
    hide Coded;
  }

  function Elements(s: seq<nat>): (r: set<nat>)
    ensures forall x :: x in r <==> x in s
  {
    if s == [] then {}
    else
      assert s == s[..|s| - 1] + [s[|s| - 1]];
      Elements(s[..|s| - 1]) + {s[|s| - 1]}
  }

  lemma {:induction false} RisingCount(s: seq<nat>)
    requires forall i, j | 0 <= i < j < |s| :: s[i] < s[j]
    ensures |Elements(s)| == |s|
  {
    if s != [] {
      var g, x := s[..|s| - 1], s[|s| - 1];
      RisingCount(g);
      assert x !in g;
    }
  }
}
