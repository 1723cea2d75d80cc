/** The instruction list of the decoder as a value: linear search, move-to-front, and
    why reordering cannot change what a word decodes to. */
module DecodeList {
  import opened Patterns
  import opened Rotation

  /** An instruction's function; the decoder only passes it on. */
  datatype Handler = IllegalInstruction | Insn(id: nat)

  datatype Desc = Desc(match_: Bits, mask: Bits, rv32: Handler, rv64: Handler) {
    /** The handler for the register width. */
    function Fn(xlen64: bool): Handler { if xlen64 then rv64 else rv32 }
  }

  predicate Matches(d: Desc, w: Bits) { Masked(w, d.match_, d.mask) }

  /** The last entry matches everything, so every search succeeds. */
  predicate Total(L: seq<Desc>) {
    |L| > 0 && L[|L| - 1].mask == 0 && L[|L| - 1].match_ == 0
  }

  /** Position of the first entry that matches w. */
  function Search(L: seq<Desc>, w: Bits): (i: nat)
    requires Total(L)
    ensures i < |L| && Matches(L[i], w)
    ensures forall k | 0 <= k < i :: !Matches(L[k], w)
  {
    SearchFrom(L, w, 0)
  }

  function SearchFrom(L: seq<Desc>, w: Bits, from: nat): (i: nat)
    requires Total(L) && from < |L|
    ensures from <= i < |L| && Matches(L[i], w)
    ensures forall k | from <= k < i :: !Matches(L[k], w)
    decreases |L| - from
  {
    if Matches(L[from], w) then from
    else
      MatchesAll(L[|L| - 1], w);
      SearchFrom(L, w, from + 1)
  }

  lemma MatchesAll(d: Desc, w: Bits)
    requires d.mask == 0 && d.match_ == 0
    ensures Matches(d, w)
  {
  }

  /** The neighbour test of decode_insn: the entry at p moves when neither neighbour
      has its match value.  The catch-all never moves. */
  predicate Moves(L: seq<Desc>, p: nat)
    requires Total(L) && p < |L|
  {
    L[p].mask != 0 && p > 0 && p + 1 < |L|
    && L[p].match_ != L[p - 1].match_ && L[p].match_ != L[p + 1].match_
  }

  /** The list after searching for w. */
  function Reordered(L: seq<Desc>, w: Bits): seq<Desc>
    requires Total(L)
  {
    var p := Search(L, w);
    if Moves(L, p) then ToFront(L, p) else L
  }

  // ------------------------------------------------- which entries may ever move

  /** No neighbour in the sorted list shares the entry's match value. */
  predicate Single(L: seq<Desc>, i: nat)
    requires i < |L|
  {
    (i > 0 ==> L[i].match_ != L[i - 1].match_) && (i + 1 < |L| ==> L[i].match_ != L[i + 1].match_)
  }

  /** The entries that some run over the words W moves to the front. */
  ghost predicate Mobile(L: seq<Desc>, W: iset<Bits>, i: nat)
    requires Total(L) && i < |L|
  {
    L[i].mask != 0 && Single(L, i) && exists w :: w in W && Search(L, w) == i
  }

  /** Every entry that can move decodes each word it matches as the list does. */
  ghost predicate Stable(L: seq<Desc>, W: iset<Bits>, xlen64: bool)
    requires Total(L)
  {
    forall i: nat, w | i < |L| && Mobile(L, W, i) && w in W && Matches(L[i], w) ::
      L[i].Fn(xlen64) == L[Search(L, w)].Fn(xlen64)
  }

  // ----------------------------------------------------- the invariant of a run

  /** L is L0 with some mobile entries taken out and put first: entry k of L is entry
      perm[k] of L0, the first front ones are mobile, and the rest keep their order. */
  ghost predicate Rearranged(L0: seq<Desc>, W: iset<Bits>, L: seq<Desc>, perm: seq<nat>, front: nat)
    requires Total(L0)
  {
    && |L| == |perm| == |L0| && front <= |perm|
    && (forall k | 0 <= k < |perm| :: perm[k] < |L0| && L[k] == L0[perm[k]])
    && (forall i | 0 <= i < |L0| :: i in perm)
    && (forall j, k | 0 <= j < k < |perm| :: perm[j] != perm[k])
    && (forall k | 0 <= k < front :: Mobile(L0, W, perm[k]))
    && (forall j, k | front <= j < k < |perm| :: perm[j] < perm[k])
  }

  ghost predicate Reachable(L0: seq<Desc>, W: iset<Bits>, L: seq<Desc>)
    requires Total(L0)
  {
    exists perm, front :: Rearranged(L0, W, L, perm, front)
  }

  lemma StartsReachable(L0: seq<Desc>, W: iset<Bits>)
    requires Total(L0)
    ensures Reachable(L0, W, L0)
  {
    var perm := seq(|L0|, k => k);
    forall i | 0 <= i < |L0| ensures i in perm { assert perm[i] == i; }
    assert Rearranged(L0, W, L0, perm, 0);
  }

  /** The catch-all stays last. */
  lemma StaysTotal(L0: seq<Desc>, W: iset<Bits>, L: seq<Desc>, perm: seq<nat>, front: nat)
    requires Total(L0) && Rearranged(L0, W, L, perm, front)
    ensures Total(L) && perm[|perm| - 1] == |L0| - 1 && front < |L0|
  {
    var n := |L0|;
    assert n - 1 in perm;
    var k :| 0 <= k < n && perm[k] == n - 1;
    assert !Mobile(L0, W, n - 1);
    InOrder(perm, front, k, n - 1);
  }

  /** Behind the moved entries, positions are ordered as their origins are. */
  lemma InOrder(perm: seq<nat>, front: nat, j: nat, k: nat)
    requires front <= j < |perm| && front <= k < |perm|
    requires forall a, b | front <= a < b < |perm| :: perm[a] < perm[b]
    ensures perm[j] < perm[k] <==> j < k
  {
    if j < k {
      assert perm[j] < perm[k];
    } else if k < j {
      assert perm[k] < perm[j];
    }
  }

  /** The first match in the rearranged list is the first match in L0, or a mobile
      entry that also matches. */
  lemma FirstMatch(L0: seq<Desc>, W: iset<Bits>, L: seq<Desc>, perm: seq<nat>, front: nat, w: Bits)
    requires Total(L0) && Total(L) && Rearranged(L0, W, L, perm, front)
    ensures var i := perm[Search(L, w)]; i == Search(L0, w) || Mobile(L0, W, i)
  {
    var p, f := Search(L, w), Search(L0, w);
    assert f in perm;
    var k :| 0 <= k < |perm| && perm[k] == f;
    assert Matches(L[k], w);
    assert p <= k;
    assert perm[p] >= f;
  }

  /** Whatever decode_insn moves is mobile: an entry with a same-match neighbour in L0
      still stands next to it. */
  lemma MovedIsMobile(L0: seq<Desc>, W: iset<Bits>, L: seq<Desc>, perm: seq<nat>, front: nat, w: Bits)
    requires Total(L0) && Total(L) && Rearranged(L0, W, L, perm, front) && w in W
    requires Moves(L, Search(L, w))
    ensures Mobile(L0, W, perm[Search(L, w)])
  {
    var p := Search(L, w);
    var i := perm[p];
    FirstMatch(L0, W, L, perm, front, w);
    if !Mobile(L0, W, i) {
      if i > 0 && L0[i].match_ == L0[i - 1].match_ {
        StandsNext(L0, W, L, perm, front, i - 1);
      }
      if i + 1 < |L0| && L0[i].match_ == L0[i + 1].match_ {
        StandsNext(L0, W, L, perm, front, i);
      }
    }
  }

  /** Neighbours i and i + 1 that share a match value are not mobile and stay adjacent. */
  lemma StandsNext(L0: seq<Desc>, W: iset<Bits>, L: seq<Desc>, perm: seq<nat>, front: nat, i: nat)
    requires Total(L0) && Rearranged(L0, W, L, perm, front)
    requires i + 1 < |L0| && L0[i].match_ == L0[i + 1].match_
    ensures exists k :: 0 <= k && k + 1 < |perm| && perm[k] == i && perm[k + 1] == i + 1
  {
    assert !Mobile(L0, W, i) && !Mobile(L0, W, i + 1);
    assert i in perm && i + 1 in perm;
    var k :| 0 <= k < |perm| && perm[k] == i;
    var j :| 0 <= j < |perm| && perm[j] == i + 1;
    assert front <= k && front <= j;
    InOrder(perm, front, k, j);
    InOrder(perm, front, k, k + 1);
    InOrder(perm, front, k + 1, j);
    assert perm[k + 1] == i + 1;
  }

  /** Moving a mobile entry to the front keeps the moved ones in front and mobile. */
  lemma FrontMobile(L0: seq<Desc>, W: iset<Bits>, perm: seq<nat>, front: nat, p: nat)
    requires Total(L0) && p < |perm| && front <= |perm| && (forall k | 0 <= k < |perm| :: perm[k] < |L0|)
    requires Mobile(L0, W, perm[p]) && forall k | 0 <= k < front :: Mobile(L0, W, perm[k])
    ensures forall k | 0 <= k < Fronted(front, p) :: Mobile(L0, W, ToFront(perm, p)[k])
  {
    hide Mobile, ToFront;
  }

  /** How many entries are moved ones after moving the entry at p. */
  function Fronted(front: nat, p: nat): nat {
    if p < front then front else front + 1
  }

  lemma FrontDistinct(perm: seq<nat>, p: nat)
    requires p < |perm| && forall j, k | 0 <= j < k < |perm| :: perm[j] != perm[k]
    ensures forall j, k | 0 <= j < k < |perm| :: ToFront(perm, p)[j] != ToFront(perm, p)[k]
  {
    hide ToFront;
  }

  lemma FrontComplete(perm: seq<nat>, p: nat, n: nat)
    requires p < |perm| && forall i | 0 <= i < n :: i in perm
    ensures forall i | 0 <= i < n :: i in ToFront(perm, p)
  {
    ToFrontPermutes(perm, p);
    hide ToFront;
    forall i | 0 <= i < n ensures i in ToFront(perm, p) {
      assert i in perm && i in multiset(perm);
    }
  }

  lemma FrontOrdered(perm: seq<nat>, front: nat, p: nat)
    requires front <= |perm| && p < |perm| && forall j, k | front <= j < k < |perm| :: perm[j] < perm[k]
    ensures forall j, k | Fronted(front, p) <= j < k < |perm| :: ToFront(perm, p)[j] < ToFront(perm, p)[k]
  {
    hide ToFront;
  }

  lemma FrontOrigins(L0: seq<Desc>, L: seq<Desc>, perm: seq<nat>, p: nat)
    requires |L| == |perm| && p < |L| && forall k | 0 <= k < |perm| :: perm[k] < |L0| && L[k] == L0[perm[k]]
    ensures var M, q := ToFront(L, p), ToFront(perm, p); forall k | 0 <= k < |perm| :: q[k] < |L0| && M[k] == L0[q[k]]
  {
    hide ToFront;
  }

  /** Moving the entry at p to the front keeps the list a rearrangement. */
  lemma ToFrontRearranged(L0: seq<Desc>, W: iset<Bits>, L: seq<Desc>, perm: seq<nat>, front: nat, p: nat)
    requires Total(L0) && Rearranged(L0, W, L, perm, front) && p < |L| && Mobile(L0, W, perm[p])
    ensures Rearranged(L0, W, ToFront(L, p), ToFront(perm, p), Fronted(front, p))
  {
    hide Mobile, ToFront;
    FrontOrigins(L0, L, perm, p);
    FrontComplete(perm, p, |L0|);
    FrontDistinct(perm, p);
    FrontMobile(L0, W, perm, front, p);
    FrontOrdered(perm, front, p);
  }

  lemma SizeOf(L0: seq<Desc>, W: iset<Bits>, L: seq<Desc>, perm: seq<nat>, front: nat)
    requires Total(L0) && Rearranged(L0, W, L, perm, front)
    ensures |L| == |perm| == |L0| && forall k | 0 <= k < |perm| :: perm[k] < |L0|
  {
  }

  /** One decode keeps the list reachable. */
  lemma StaysReachable(L0: seq<Desc>, W: iset<Bits>, L: seq<Desc>, w: Bits)
    requires Total(L0) && Reachable(L0, W, L) && w in W
    ensures Total(L) && Reachable(L0, W, Reordered(L, w))
  {
    hide Rearranged, Mobile, Moves;
    var perm, front :| Rearranged(L0, W, L, perm, front);
    StaysTotal(L0, W, L, perm, front);
    SizeOf(L0, W, L, perm, front);
    var p := Search(L, w);
    if Moves(L, p) {
      MovedIsMobile(L0, W, L, perm, front, w);
      ToFrontRearranged(L0, W, L, perm, front, p);
    }
  }

  /** In every reachable list a word finds a handler the sorted list agrees with. */
  lemma SameHandler(L0: seq<Desc>, W: iset<Bits>, L: seq<Desc>, w: Bits, xlen64: bool)
    requires Total(L0) && Reachable(L0, W, L) && w in W && Stable(L0, W, xlen64)
    ensures Total(L) && L[Search(L, w)].Fn(xlen64) == L0[Search(L0, w)].Fn(xlen64)
  {
    var perm, front :| Rearranged(L0, W, L, perm, front);
    StaysTotal(L0, W, L, perm, front);
    FirstMatch(L0, W, L, perm, front, w);
  }

  // -------------------------------------------------------- overlapping patterns

  /** The order build_opcode_map sorts by. */
  predicate AtLeast(a: Desc, b: Desc) {
    a.match_ > b.match_ || (a.match_ == b.match_ && a.mask >= b.mask)
  }

  predicate Sorted(L: seq<Desc>) {
    forall i, j | 0 <= i < j < |L| :: AtLeast(L[i], L[j])
  }

  /** Patterns that match a common word share a match value, or one is the catch-all. */
  ghost predicate Compatible(L: seq<Desc>) {
    forall i, j, w | 0 <= i < j < |L| && Matches(L[i], w) && Matches(L[j], w) ::
      L[i].match_ == L[j].match_ || L[j].mask == 0
  }

  /** In a sorted list with compatible patterns a mobile entry is the first match of
      every word it matches. */
  lemma CompatibleIsStable(L: seq<Desc>, W: iset<Bits>, xlen64: bool)
    requires Total(L) && Sorted(L) && Compatible(L)
    ensures Stable(L, W, xlen64)
  {
    forall i: nat, w | i < |L| && Mobile(L, W, i) && w in W && Matches(L[i], w)
      ensures Search(L, w) == i
    {
      var f := Search(L, w);
      if f < i {
        assert L[f].match_ == L[i].match_;
        SortedBetween(L, f, i);
      }
    }
  }

  /** Equal match values bracket only equal match values. */
  lemma SortedBetween(L: seq<Desc>, f: nat, i: nat)
    requires Sorted(L) && f < i < |L| && L[f].match_ == L[i].match_
    ensures L[i - 1].match_ == L[i].match_
  {
    if f < i - 1 {
      assert AtLeast(L[f], L[i - 1]) && AtLeast(L[i - 1], L[i]);
      Antisymmetric(L[f].match_, L[i - 1].match_);
    }
  }

  lemma Antisymmetric(a: Bits, b: Bits)
    ensures !(a > b && b > a)
  {
  }
}
