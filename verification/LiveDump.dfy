/** traverse_and_print: the resident lines, oldest access first. */
module LiveDump {
  import opened LruList
  import opened LiveModel
  import opened CacheArray
  import opened MergeSort
  import LC = LiveCache

  /** What is printed for a line: the store flag and the line's base address. */
  datatype Record = Record(store: bool, addr: nat)

  /** d lists the resident lines but for the one still holding order 0, by rising time of
      last access, each flagged as written since it was filled or not. */
  ghost predicate DumpOf(d: seq<Cell>, h: seq<Acc>, c: Shape)
    requires c.Ok()
  {
    && (forall i | 0 <= i < |d| :: Listed(d[i], h, c))
    && (forall i, j | 0 <= i < j < |d| :: d[i].order < d[j].order)
    && forall t: nat | t != 0 && Resident(h, t, c) && t in Tags(h) && LastUse(Tags(h), t) != 0 :: exists i :: 0 <= i < |d| && d[i].tag == t
  }

  ghost predicate Listed(x: Cell, h: seq<Acc>, c: Shape)
    requires c.Ok()
  {
    && x.tag != 0 && Resident(h, x.tag, c) && x.tag in Tags(h)
    && x.order == LastUse(Tags(h), x.tag) != 0 && (x.st <==> WrittenAndKept(h, x.tag, c))
  }

  /** Equal times of last access are equal cells. */
  lemma SameTime(x: Cell, y: Cell, h: seq<Acc>, c: Shape)
    requires c.Ok() && Listed(x, h, c) && Listed(y, h, c) && (x.order == y.order || x.tag == y.tag)
    ensures x == y
  {
    hide Resident, WrittenAndKept;
  }

  /** A listed cell of one dump is in every other, at or behind the position where the
      two still agreed. */
  lemma FoundBehind(d: seq<Cell>, e: seq<Cell>, h: seq<Acc>, c: Shape, n: nat) returns (j: nat)
    requires c.Ok() && DumpOf(d, h, c) && DumpOf(e, h, c) && n < |d| && n <= |e| && d[..n] == e[..n]
    ensures n <= j < |e| && e[j] == d[n]
  {
    hide Resident, WrittenAndKept;
    assert Listed(d[n], h, c);
    j :| 0 <= j < |e| && e[j].tag == d[n].tag;
    assert Listed(e[j], h, c);
    SameTime(d[n], e[j], h, c);
    forall k | 0 <= k < n ensures e[k] != d[n] {
      assert e[k] == e[..n][k] == d[k] && d[k].order < d[n].order;
    }
  }

  lemma NotLater(d: seq<Cell>, h: seq<Acc>, c: Shape, i: nat, j: nat)
    requires c.Ok() && DumpOf(d, h, c) && i <= j < |d|
    ensures d[i].order <= d[j].order && (d[i].order == d[j].order ==> i == j)
  {
    hide Listed;
  }

  lemma {:induction false} DumpsAgree(d: seq<Cell>, e: seq<Cell>, h: seq<Acc>, c: Shape, n: nat)
    requires c.Ok() && DumpOf(d, h, c) && DumpOf(e, h, c) && n <= |d|
    ensures n <= |e| && d[..n] == e[..n]
  {
    hide DumpOf, Listed, Resident;
    if n > 0 {
      DumpsAgree(d, e, h, c, n - 1);
      var j := FoundBehind(d, e, h, c, n - 1);
      var i := FoundBehind(e, d, h, c, n - 1);
      assert d[..n] == d[..n - 1] + [d[n - 1]] && e[..n] == e[..n - 1] + [e[n - 1]];
      NotLater(e, h, c, n - 1, j);
      NotLater(d, h, c, n - 1, i);
    }
  }

  /** The history leaves no choice about what is printed. */
  lemma DumpUnique(d: seq<Cell>, e: seq<Cell>, h: seq<Acc>, c: Shape)
    requires c.Ok() && DumpOf(d, h, c) && DumpOf(e, h, c)
    ensures d == e
  {
    hide DumpOf;
    DumpsAgree(d, e, h, c, |d|);
    DumpsAgree(e, d, h, c, |e|);
  }

  // ----------------------------------------------------------- cells of the whole array

  lemma SetOf(v: seq<Cell>, i: nat, c: Shape) returns (k: nat, j: nat)
    requires c.Ok() && |v| == c.sets * c.assoc && i < |v|
    ensures k < c.sets && j < c.assoc && i == k * c.assoc + j && LC.SetCells(v, k, c)[j] == v[i]
  {
    k, j := i / c.assoc, i % c.assoc;
    SetInRange(i, c.sets, c.assoc);
    SliceFits(k, c.sets, c.assoc);
  }

  lemma SetInRange(i: nat, sets: nat, assoc: nat)
    requires assoc > 0 && i < sets * assoc
    ensures i / assoc < sets && i == i / assoc * assoc + i % assoc
  {
    Powers.DivBound(i, assoc, sets);
  }

  /** What a valid cell anywhere in the array says. */
  lemma CellListed(v: seq<Cell>, h: seq<Acc>, c: Shape, i: nat)
    requires LC.AllHold(v, h, c) && i < |v| && v[i].tag != 0 && v[i].order != 0
    ensures Listed(v[i], h, c)
  {
    hide Packed, Lru, WrittenAndKept, Stored;
    var k, j := SetOf(v, i, c);
    var s := LC.SetCells(v, k, c);
    assert Holds(s, h, k, c);
    assert CellOk(s[j], h, k, c);
    InValids(TagsOf(s), j);
    StoredMeans(h, v[i].tag, c);
  }

  lemma InValids(ts: seq<nat>, j: nat)
    requires Packed(ts) && j < |ts| && ts[j] != 0
    ensures ts[j] in Valids(ts) && j < |Valids(ts)|
  {
    assert j < |Valids(ts)|;
    assert Valids(ts)[j] == ts[j];
  }

  /** No two valid lines share a tag. */
  lemma TagsApart(v: seq<Cell>, h: seq<Acc>, c: Shape, i: nat, j: nat)
    requires LC.AllHold(v, h, c) && i < |v| && j < |v| && i != j && v[i].tag != 0
    ensures v[i].tag != v[j].tag
  {
    hide Lru, Stored, Valids;
    var k, a := SetOf(v, i, c);
    var l, b := SetOf(v, j, c);
    var s := LC.SetCells(v, k, c);
    assert Holds(s, h, k, c) && Holds(LC.SetCells(v, l, c), h, l, c);
    assert CellOk(s[a], h, k, c);
    if v[j].tag == v[i].tag {
      assert CellOk(LC.SetCells(v, l, c)[b], h, l, c);
      assert k == l;
      SameSpot(TagsOf(s), v[i].tag, a, b);
    }
  }

  /** Every resident line is somewhere in the array. */
  lemma ResidentHeld(v: seq<Cell>, h: seq<Acc>, c: Shape, t: nat) returns (i: nat)
    requires LC.AllHold(v, h, c) && t != 0 && Resident(h, t, c)
    ensures i < |v| && v[i].tag == t && t in Tags(h) && v[i].order == LastUse(Tags(h), t)
  {
    hide Lru, Stored, Packed;
    var k := t % c.sets;
    var s := LC.SetCells(v, k, c);
    assert Holds(s, h, k, c);
    var V := Valids(TagsOf(s));
    var j :| 0 <= j < |V| && V[j] == t;
    assert TagsOf(s)[j] == t && CellOk(s[j], h, k, c);
    SliceFits(k, c.sets, c.assoc);
    i := k * c.assoc + j;
  }

  /** Distinct lines listed have distinct times. */
  lemma TimesApart(v: seq<Cell>, h: seq<Acc>, c: Shape, i: nat, j: nat)
    requires LC.AllHold(v, h, c) && i < |v| && j < |v| && i != j
    requires v[i].tag != 0 && v[j].tag != 0 && v[i].order != 0 && v[j].order != 0
    ensures v[i].order != v[j].order
  {
    hide LC.AllHold, Resident, WrittenAndKept;
    TagsApart(v, h, c, i, j);
    CellListed(v, h, c, i);
    CellListed(v, h, c, j);
  }

  // -------------------------------------------------------------- the two filters

  /** The lines the first loop collects. */
  ghost function Ordered(s: seq<Line>): (r: seq<Line>)
    reads s
    ensures forall x | x in r :: x in s && x.order != 0
    ensures forall x | x in s && x.order != 0 :: x in r
  {
    if s == [] then []
    else
      var g, x := s[..|s| - 1], s[|s| - 1];
      assert s == g + [x];
      if x.order != 0 then Ordered(g) + [x] else Ordered(g)
  }

  lemma {:induction false} OrderedDistinct(s: seq<Line>)
    requires Distinct(s)
    ensures Distinct(Ordered(s))
  {
    if s != [] {
      var g := s[..|s| - 1];
      OrderedDistinct(g);
      assert s[|s| - 1] !in g;
    }
  }

  /** The cells the second loop prints. */
  ghost function Valued(s: seq<Line>): (r: seq<Cell>)
    reads s
  {
    if s == [] then []
    else
      var g, x := s[..|s| - 1], s[|s| - 1];
      if x.tag != 0 then Valued(g) + [x.Value()] else Valued(g)
  }

  lemma {:induction false} ValuedHas(s: seq<Line>, a: nat)
    requires a < |s| && s[a].tag != 0
    ensures s[a].Value() in Valued(s)
  {
    var g := s[..|s| - 1];
    if a < |g| {
      ValuedHas(g, a);
    }
  }

  lemma {:induction false} ValuedFrom(s: seq<Line>, i: nat) returns (a: nat)
    requires i < |Valued(s)|
    ensures a < |s| && s[a].Value() == Valued(s)[i] && s[a].tag != 0
  {
    var g := s[..|s| - 1];
    if i < |Valued(g)| {
      a := ValuedFrom(g, i);
    } else {
      a := |g|;
    }
  }

  lemma {:induction false} ValuedOrder(s: seq<Line>, i: nat, j: nat) returns (a: nat, b: nat)
    requires i < j < |Valued(s)|
    ensures a < b < |s| && s[a].Value() == Valued(s)[i] && s[b].Value() == Valued(s)[j] && s[a].tag != 0 && s[b].tag != 0
  {
    var g := s[..|s| - 1];
    if j < |Valued(g)| {
      a, b := ValuedOrder(g, i, j);
    } else {
      a := ValuedFrom(g, i);
      b := |g|;
    }
  }

  lemma SameBag<T>(s: seq<T>, r: seq<T>)
    requires multiset(s) == multiset(r) && Distinct(s)
    ensures Distinct(r) && forall x :: x in r <==> x in s
  {
    forall x ensures x in r <==> x in s {
      assert x in multiset(s) <==> x in s;
      assert x in multiset(r) <==> x in r;
    }
    forall i, j | 0 <= i < j < |r| ensures r[i] != r[j] {
      if r[i] == r[j] {
        TwiceCounts(r, i, j);
        OnceCounts(s, r[i]);
      }
    }
  }

  lemma TwiceCounts<T>(r: seq<T>, i: nat, j: nat)
    requires i < j < |r| && r[i] == r[j]
    ensures multiset(r)[r[i]] >= 2
  {
    assert r == r[..i] + [r[i]] + r[i + 1..j] + [r[j]] + r[j + 1..];
  }

  lemma {:induction false} OnceCounts<T>(s: seq<T>, x: T)
    requires Distinct(s)
    ensures multiset(s)[x] <= 1
  {
    if s != [] {
      var g := s[..|s| - 1];
      OnceCounts(g, x);
      assert s == g + [s[|s| - 1]];
      if x == s[|s| - 1] {
        assert x !in g;
        assert x !in multiset(g);
      }
    }
  }

  // ------------------------------------------------------------------------ the dump

  /** Which position of the array a collected line came from. */
  lemma PositionOf(bank: CacheAssoc, x: Line) returns (i: nat)
    requires bank.Valid() && x in Ordered(bank.ptrs)
    ensures i < |bank.cells| && bank.ptrs[i] == x && bank.cells[i] == x.Value() && x.order != 0
  {
    i :| 0 <= i < |bank.ptrs| && bank.ptrs[i] == x;
  }

  /** Sorting the collected lines and dropping invalid ones gives the dump. */
  lemma DumpCorrect(bank: CacheAssoc, h: seq<Acc>, S: seq<Line>)
    requires bank.Valid() && LC.AllHold(bank.cells, h, bank.shape)
    requires Sorted(S) && multiset(S) == multiset(Ordered(bank.ptrs))
    ensures DumpOf(Valued(S), h, bank.shape)
  {
    hide Ordered, Valued, LC.AllHold, Listed, Resident, Distinct;
    ShapeOk(bank, h);
    var d, c := Valued(S), bank.shape;
    OrderedDistinct(bank.ptrs);
    SameBag(Ordered(bank.ptrs), S);
    forall i | 0 <= i < |d| ensures Listed(d[i], h, c) {
      var a := ValuedFrom(S, i);
      var p := PositionOf(bank, S[a]);
      CellListed(bank.cells, h, c, p);
    }
    forall i, j | 0 <= i < j < |d| ensures d[i].order < d[j].order {
      DumpRises(bank, h, S, i, j);
    }
    forall t: nat | t != 0 && Resident(h, t, c) && t in Tags(h) && LastUse(Tags(h), t) != 0 ensures exists i :: 0 <= i < |d| && d[i].tag == t {
      var p := ResidentHeld(bank.cells, h, c, t);
      var x := bank.ptrs[p];
      assert x in Ordered(bank.ptrs);
      var a :| 0 <= a < |S| && S[a] == x;
      ValuedHas(S, a);
      var i :| 0 <= i < |d| && d[i] == x.Value();
    }
  }

  lemma ShapeOk(bank: CacheAssoc, h: seq<Acc>)
    requires bank.Valid() && LC.AllHold(bank.cells, h, bank.shape)
    ensures bank.shape.Ok()
  {
  }

  lemma DumpRises(bank: CacheAssoc, h: seq<Acc>, S: seq<Line>, i: nat, j: nat)
    requires bank.Valid() && LC.AllHold(bank.cells, h, bank.shape)
    requires Sorted(S) && Distinct(S) && (forall x :: x in S <==> x in Ordered(bank.ptrs)) && i < j < |Valued(S)|
    ensures Valued(S)[i].order < Valued(S)[j].order
  {
    hide Ordered, Valued, LC.AllHold;
    var a, b := ValuedOrder(S, i, j);
    var p := PositionOf(bank, S[a]);
    var q := PositionOf(bank, S[b]);
    TimesApart(bank.cells, h, bank.shape, p, q);
  }

  /** What is printed for the cells d. */
  ghost predicate Prints(out: seq<Record>, d: seq<Cell>, lineSize: nat) {
    |out| == |d| && forall i | 0 <= i < |d| :: out[i] == Record(d[i].st, d[i].tag * lineSize)
  }

  /** The dump; DumpUnique makes what it stands for the only one the history allows. */
  method TraverseAndPrint(cache: LC.LiveCache) returns (out: seq<Record>)
    requires cache.Valid()
    ensures exists d :: DumpOf(d, cache.history, cache.cacheBank.shape) && Prints(out, d, cache.lineSize)
  {
    hide LC.AllHold, DumpOf, Prints, MergeSorted, Sorted, Distinct, Ordered, Valued, Merge;
    var bank := cache.cacheBank;
    var arr := Collect(bank);
    ghost var s := Ordered(bank.ptrs);
    SortedPermutation(s);
    DumpCorrect(bank, cache.history, MergeSorted(s));
    ghost var d := Valued(MergeSorted(s));
    SortLines(arr, s);
    out := Print(arr, MergeSorted(s), cache.lineSize);
    assert DumpOf(d, cache.history, bank.shape) && Prints(out, d, cache.lineSize);
  }

  /** The second loop. */
  method Print(arr: array<Line>, ghost S: seq<Line>, lineSize: nat) returns (out: seq<Record>)
    requires Shows(arr, S)
    ensures Prints(out, Valued(S), lineSize)
  {
    hide Valued;
    out := [];
    ghost var d: seq<Cell> := [];
    EmptyValued();
    assert S[..0] == [];
    for n := 0 to arr.Length
      invariant d == Valued(S[..n]) && Prints(out, d, lineSize)
    {
      ValuedStep(S, n);
      if arr[n].tag > 0 {
        out := out + [Record(arr[n].st, arr[n].tag * lineSize)];
        d := d + [arr[n].Value()];
      }
    }
    assert S[..|S|] == S;
  }

  lemma EmptyValued()
    ensures Valued([]) == []
  {
  }

  lemma ValuedStep(S: seq<Line>, n: nat)
    requires n < |S|
    ensures Valued(S[..n + 1]) == Valued(S[..n]) + (if S[n].tag != 0 then [S[n].Value()] else [])
  {
    assert S[..n + 1][..n] == S[..n];
  }

  lemma OrderedStep(s: seq<Line>, n: nat)
    requires n < |s|
    ensures Ordered(s[..n + 1]) == Ordered(s[..n]) + (if s[n].order != 0 then [s[n]] else [])
  {
    assert s[..n + 1][..n] == s[..n];
  }

  /** The first loop. */
  method Collect(bank: CacheAssoc) returns (arr: array<Line>)
    requires bank.Valid()
    ensures fresh(arr) && Shows(arr, Ordered(bank.ptrs))
  {
    hide Ordered, Distinct;
    var picked: seq<Line> := [];
    EmptyOrdered();
    assert bank.ptrs[..0] == [];
    for i := 0 to bank.content.Length
      invariant picked == Ordered(bank.ptrs[..i])
    {
      OrderedStep(bank.ptrs, i);
      if bank.content[i].order != 0 {
        picked := picked + [bank.content[i]];
      }
    }
    assert bank.ptrs[..|bank.ptrs|] == bank.ptrs;
    arr := new Line[|picked|](i requires 0 <= i < |picked| => picked[i]);
  }

  lemma EmptyOrdered()
    ensures Ordered([]) == []
  {
  }
}
