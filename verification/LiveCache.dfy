/** LiveCache: reads and writes over the LRU array. */
module LiveCache {
  import opened LruList
  import opened Rotation
  import opened LiveModel
  import opened CacheArray

  /** The cells of set k in the array's contents. */
  function SetCells(v: seq<Cell>, k: nat, c: Shape): (s: seq<Cell>)
    requires c.Ok() && |v| == c.sets * c.assoc && k < c.sets
    ensures |s| == c.assoc
  {
    SliceFits(k, c.sets, c.assoc);
    v[k * c.assoc..k * c.assoc + c.assoc]
  }

  /** The array's contents after an access of order n. */
  function AccessedAt(v: seq<Cell>, base: nat, p: nat, x: Cell): (r: seq<Cell>)
    requires base + p < |v|
    ensures |r| == |v|
  {
    Rotated(v, base, p)[base := x]
  }

  lemma OwnSet(v: seq<Cell>, a: Acc, n: nat, c: Shape)
    requires c.Ok() && |v| == c.sets * c.assoc
    ensures var k := a.tag % c.sets; var s := SetCells(v, k, c); var p := Victim(TagsOf(s), a.tag);
      && k * c.assoc + c.assoc <= |v|
      && SetCells(AccessedAt(v, k * c.assoc, p, Cell(a.tag, a.write || (s[p].tag == a.tag && s[p].st), n)), k, c) == Accessed(s, a, n)
  {
    hide Rotated, ToFront, Victim;
    var k := a.tag % c.sets;
    SliceFits(k, c.sets, c.assoc);
    var base, s := k * c.assoc, SetCells(v, k, c);
    var p := Victim(TagsOf(s), a.tag);
    RotatedSlice(v, base, p, c.assoc);
    FirstOfSlice(Rotated(v, base, p), base, c.assoc, Cell(a.tag, a.write || (s[p].tag == a.tag && s[p].st), n));
  }

  lemma FirstOfSlice(v: seq<Cell>, base: nat, n: nat, x: Cell)
    requires n > 0 && base + n <= |v|
    ensures v[base := x][base..base + n] == v[base..base + n][0 := x]
  {
  }

  lemma OtherSlice(v: seq<Cell>, base: nat, p: nat, x: Cell, b: nat, n: nat)
    requires base + p < |v| && b + n <= |v| && (b + n <= base || base + p < b)
    ensures AccessedAt(v, base, p, x)[b..b + n] == v[b..b + n]
  {
    hide Rotated;
    RotatedAside(v, base, p, b, n);
  }

  lemma OtherSets(v: seq<Cell>, base: nat, p: nat, x: Cell, k: nat, j: nat, c: Shape)
    requires c.Ok() && |v| == c.sets * c.assoc && k < c.sets && j < c.sets && j != k && base == k * c.assoc && p < c.assoc && base + p < |v|
    ensures SetCells(AccessedAt(v, base, p, x), j, c) == SetCells(v, j, c)
  {
    hide AccessedAt;
    SlicesApart(j, k, c.assoc);
    SliceFits(j, c.sets, c.assoc);
    var b := j * c.assoc;
    assert b + c.assoc <= base || base + p < b;
    OtherSlice(v, base, p, x, b, c.assoc);
  }

  /** Every set holds what the history says. */
  ghost predicate AllHold(v: seq<Cell>, h: seq<Acc>, c: Shape) {
    c.Ok() && |v| == c.sets * c.assoc && forall k: nat | k < c.sets :: Holds(SetCells(v, k, c), h, k, c)
  }

  lemma StartHold(v: seq<Cell>, c: Shape)
    requires c.Ok() && |v| == c.sets * c.assoc && forall i | 0 <= i < |v| :: v[i].tag == 0
    ensures AllHold(v, [], c)
  {
    forall k: nat | k < c.sets ensures Holds(SetCells(v, k, c), [], k, c) {
      SliceFits(k, c.sets, c.assoc);
      StartHolds(SetCells(v, k, c), k, c);
    }
  }

  /** What an access leaves in the whole array. */
  lemma AccessHold(v: seq<Cell>, h: seq<Acc>, a: Acc, c: Shape, base: nat, p: nat, x: Cell)
    requires AllHold(v, h, c) && a.tag != 0 && base == a.tag % c.sets * c.assoc
    requires var s := SetCells(v, a.tag % c.sets, c);
             p == Victim(TagsOf(s), a.tag) && x == Cell(a.tag, a.write || (s[p].tag == a.tag && s[p].st), |h|)
    ensures base + c.assoc <= |v| && AllHold(AccessedAt(v, base, p, x), h + [a], c)
  {
    hide Holds, Victim, TagsOf, Accessed, AccessedAt;
    var k := a.tag % c.sets;
    SliceFits(k, c.sets, c.assoc);
    var w := AccessedAt(v, base, p, x);
    forall j: nat | j < c.sets ensures Holds(SetCells(w, j, c), h + [a], j, c) {
      assert Holds(SetCells(v, j, c), h, j, c);
      if j == k {
        OwnSet(v, a, |h|, c);
        AccessHolds(SetCells(v, k, c), h, a, c);
      } else {
        OtherSets(v, base, p, x, k, j, c);
        OtherSet(SetCells(v, j, c), h, a, j, c);
      }
    }
  }

  lemma AccessKeeps(v: seq<Cell>, h: seq<Acc>, a: Acc, c: Shape, base: nat, p: nat, x: Cell)
    requires AllHold(v, h, c) && a.tag != 0 && base == a.tag % c.sets * c.assoc && base + c.assoc <= |v|
    requires p == Victim(TagsOf(v[base..base + c.assoc]), a.tag)
    requires x == Cell(a.tag, a.write || (v[base + p].tag == a.tag && v[base + p].st), |h|)
    ensures AllHold(Rotated(v, base, p)[base := x], h + [a], c)
  {
    hide Holds, Victim, TagsOf, Rotated;
    assert SetCells(v, a.tag % c.sets, c) == v[base..base + c.assoc];
    AccessHold(v, h, a, c, base, p, x);
  }

  lemma SetPacked(v: seq<Cell>, h: seq<Acc>, k: nat, c: Shape)
    requires AllHold(v, h, c) && k < c.sets && k * c.assoc + c.assoc <= |v|
    ensures Packed(TagsOf(v[k * c.assoc..k * c.assoc + c.assoc]))
  {
    hide Packed, TagsOf;
    assert Holds(SetCells(v, k, c), h, k, c);
  }

  lemma Overwritten(s: seq<Cell>, i: nat, y: Cell, x: Cell)
    requires i < |s|
    ensures s[i := y][i] == y && s[i := y][i := x] == s[i := x]
  {
  }

  /** Moved to the front once, the line does not move again. */
  lemma FirstRotated(v: seq<Cell>, base: nat, p: nat)
    requires base + p < |v|
    ensures var v1 := Rotated(v, base, p); v1[base] == v[base + p] && Rotated(v1, base, 0) == v1
  {
    NotRotated(Rotated(v, base, p), base);
  }

  class LiveCache {
    const cacheBank: CacheAssoc
    const lineSize: nat
    var maxOrder: nat
    /** Every access so far. */
    ghost var history: seq<Acc>

    ghost predicate Valid()
      reads this, cacheBank, cacheBank.content, cacheBank.lines
    {
      cacheBank.Valid() && lineSize > 0 && |history| == maxOrder && AllHold(cacheBank.cells, history, cacheBank.shape)
    }

    constructor (shape: Shape, lineSize: nat, junk: nat -> (bool, nat))
      requires shape.Ok() && lineSize > 0
      ensures Valid() && history == [] && cacheBank.shape == shape && this.lineSize == lineSize
      ensures fresh(cacheBank) && fresh(cacheBank.content) && fresh(cacheBank.lines)
    {
      cacheBank := new CacheAssoc(shape, junk);
      this.lineSize, maxOrder, history := lineSize, 0, [];
      new;
      StartHold(cacheBank.cells, shape);
    }

    /** A second lookup, and the fill after a hit, find the line in front. */
    lemma InFront(v: seq<Cell>, base: nat, w: nat, tag: nat)
      requires base + w < base + cacheBank.shape.assoc <= |v| && v[base + w].tag == tag
      ensures var v1 := Rotated(v, base, w); var ts := TagsOf(v1[base..base + cacheBank.shape.assoc]);
        Where(ts, tag) == 0 && Victim(ts, tag) == 0 && Rotated(v1, base, 0) == v1 && v1[base] == v[base + w]
    {
      NotRotated(Rotated(v, base, w), base);
    }

    /** In a packed set a lookup and a fill find the same line, if it is there. */
    lemma FoundIff(v: seq<Cell>, base: nat, tag: nat, n: nat)
      requires n > 0 && base + n <= |v| && tag != 0 && Packed(TagsOf(v[base..base + n]))
      ensures var ts := TagsOf(v[base..base + n]); var p, w := Victim(ts, tag), Where(ts, tag);
        if v[base + p].tag == tag then w == p else w == n
    {
      hide Packed, Where, WhereLast;
      VictimIsLru(TagsOf(v[base..base + n]), tag);
    }

    /** The first half of read: the tag if the line is there, else 0; a line found is
        left in front. */
    method TagIfFound(tag: nat) returns (tmp: nat)
      requires cacheBank.Valid() && tag != 0 && Packed(cacheBank.TagsFor(tag))
      modifies cacheBank`cells, cacheBank`ptrs, cacheBank.content
      ensures cacheBank.Valid()
      ensures var p, base, v := Victim(old(cacheBank.TagsFor(tag)), tag), cacheBank.IndexOf(tag), old(cacheBank.cells);
        if v[base + p].tag == tag then
          tmp == tag && cacheBank.cells == Rotated(v, base, p) && Victim(cacheBank.TagsFor(tag), tag) == 0
        else tmp == 0 && cacheBank.cells == v
    {
      hide Rotated, Victim, TagsOf, Where, Packed, Distinct, Valids;
      ghost var v, base, w := cacheBank.cells, cacheBank.IndexOf(tag), Where(cacheBank.TagsFor(tag), tag);
      ghost var p := Victim(cacheBank.TagsFor(tag), tag);
      FoundIff(v, base, tag, cacheBank.shape.assoc);
      tmp := 0;
      var found := cacheBank.FindLine(tag);
      if found != null {
        InFront(v, base, w, tag);
        ghost var v1 := cacheBank.cells;
        assert v[base + p].tag == tag && v1 == Rotated(v, base, p);
        assert cacheBank.TagsFor(tag) == TagsOf(v1[base..base + cacheBank.shape.assoc]);
        var again := cacheBank.FindLine(tag);
        assert cacheBank.cells == v1;
        tmp := again.tag;
        assert again.Value() == v1[base];
      }
    }

    /** The second half of read: fill, and forget the store flag of another line. */
    method FillForRead(tag: nat, tmp: nat)
      requires cacheBank.Valid()
      modifies this`maxOrder, cacheBank`cells, cacheBank`ptrs, cacheBank.content, cacheBank.lines
      ensures cacheBank.Valid() && maxOrder == old(maxOrder) + 1
      ensures var base, p, v := cacheBank.IndexOf(tag), Victim(old(cacheBank.TagsFor(tag)), tag), old(cacheBank.cells);
        cacheBank.cells == Rotated(v, base, p)[base := Cell(tag, tmp == tag && v[base + p].st, old(maxOrder))]
    {
      hide Rotated, Victim, TagsOf, Distinct;
      ghost var base, p, v := cacheBank.IndexOf(tag), Victim(cacheBank.TagsFor(tag), tag), cacheBank.cells;
      ghost var y := v[base + p].(tag := tag);
      var l := cacheBank.FillLine(tag);
      var st := l.st;
      if l.tag != tmp {
        st := false;
      }
      cacheBank.Stamp(cacheBank.IndexOf(tag), st, maxOrder);
      Overwritten(Rotated(v, base, p), base, y, Cell(tag, st, maxOrder));
      maxOrder := maxOrder + 1;
    }

    method Read(addr: nat)
      requires Valid() && addr / lineSize != 0
      modifies this, cacheBank`cells, cacheBank`ptrs, cacheBank.content, cacheBank.lines
      ensures Valid() && history == old(history) + [Acc(addr / lineSize, false)]
    {
      hide Rotated, Victim, TagsOf, AllHold, Packed, Distinct;
      var tag := addr / lineSize;
      ghost var v, p, base := cacheBank.cells, Victim(cacheBank.TagsFor(tag), tag), cacheBank.IndexOf(tag);
      ghost var x := Cell(tag, v[base + p].tag == tag && v[base + p].st, |history|);
      AccessKeeps(v, history, Acc(tag, false), cacheBank.shape, base, p, x);
      SetPacked(v, history, tag % cacheBank.shape.sets, cacheBank.shape);
      FirstRotated(v, base, p);
      var tmp := TagIfFound(tag);
      FillForRead(tag, tmp);
      history := history + [Acc(tag, false)];
    }

    method Write(addr: nat)
      requires Valid() && addr / lineSize != 0
      modifies this, cacheBank`cells, cacheBank`ptrs, cacheBank.content, cacheBank.lines
      ensures Valid() && history == old(history) + [Acc(addr / lineSize, true)]
    {
      hide Rotated, Victim, TagsOf, AllHold, Distinct;
      var tag := addr / lineSize;
      ghost var v, p, base := cacheBank.cells, Victim(cacheBank.TagsFor(tag), tag), cacheBank.IndexOf(tag);
      ghost var x := Cell(tag, true, |history|);
      AccessKeeps(v, history, Acc(tag, true), cacheBank.shape, base, p, x);
      var l := cacheBank.FillLine(tag);
      cacheBank.Stamp(cacheBank.IndexOf(tag), true, maxOrder);
      maxOrder := maxOrder + 1;
      assert cacheBank.cells == Rotated(v, base, p)[base := x];
      history := history + [Acc(tag, true)];
    }
  }
}
