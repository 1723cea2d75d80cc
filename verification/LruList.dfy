/** Least-recently-used lists: the abstract bounded list, what it holds in terms of the
    history of uses, and the array slice of CacheAssoc that refines it. */
module LruList {
  import opened Rotation

  // ------------------------------------------------------------- the abstract list

  function Without(L: seq<nat>, t: nat): (r: seq<nat>)
    ensures t !in r && |r| <= |L|
    ensures forall x | x != t :: x in r <==> x in L
  {
    if L == [] then []
    else if L[0] == t then Without(L[1..], t)
    else [L[0]] + Without(L[1..], t)
  }

  function Cut(L: seq<nat>, cap: nat): seq<nat> { if |L| <= cap then L else L[..cap] }

  /** Use t in a list of at most cap tags: it comes first, the last one may fall out. */
  function Use(L: seq<nat>, t: nat, cap: nat): seq<nat> { Cut([t] + Without(L, t), cap) }

  /** The list after a history of uses. */
  function Lru(h: seq<nat>, cap: nat): seq<nat> {
    if h == [] then [] else Use(Lru(h[..|h| - 1], cap), h[|h| - 1], cap)
  }

  /** All tags ever used, most recent first. */
  function Recent(h: seq<nat>): seq<nat> {
    if h == [] then [] else [h[|h| - 1]] + Without(Recent(h[..|h| - 1]), h[|h| - 1])
  }

  ghost predicate Distinct<T>(L: seq<T>) { forall i, j | 0 <= i < j < |L| :: L[i] != L[j] }

  lemma {:induction false} WithoutDistinct(L: seq<nat>, t: nat)
    requires Distinct(L)
    ensures Distinct(Without(L, t))
  {
    if L != [] {
      WithoutDistinct(L[1..], t);
      assert L[0] !in L[1..];
    }
  }

  lemma {:induction false} WithoutAbsent(L: seq<nat>, t: nat)
    requires t !in L
    ensures Without(L, t) == L
  {
    if L != [] {
      WithoutAbsent(L[1..], t);
    }
  }

  /** Removing the one occurrence of t closes the gap. */
  lemma {:induction false} WithoutAt(L: seq<nat>, t: nat, p: nat)
    requires Distinct(L) && p < |L| && L[p] == t
    ensures Without(L, t) == L[..p] + L[p + 1..]
  {
    if p == 0 {
      assert t !in L[1..];
      WithoutAbsent(L[1..], t);
    } else {
      WithoutAt(L[1..], t, p - 1);
      assert L[1..][..p - 1] == L[1..p];
    }
  }

  lemma CutUse(L: seq<nat>, t: nat, cap: nat)
    requires Distinct(L)
    ensures Use(Cut(L, cap), t, cap) == Cut([t] + Without(L, t), cap)
  {
    hide Without, Distinct;
    if cap > 0 && |L| > cap {
      CutWithout(L, t, cap);
      CutCons(t, Without(L, t), cap);
      CutCons(t, Without(Cut(L, cap), t), cap);
    }
  }

  lemma CutCons(t: nat, X: seq<nat>, cap: nat)
    requires cap > 0
    ensures Cut([t] + X, cap) == [t] + Cut(X, cap - 1)
  {
  }

  /** What falls off the end does not matter to the first cap - 1 of the others. */
  lemma CutWithout(L: seq<nat>, t: nat, cap: nat)
    requires Distinct(L) && 0 < cap < |L|
    ensures Cut(Without(Cut(L, cap), t), cap - 1) == Cut(Without(L, t), cap - 1)
  {
    hide Without;
    var C := L[..cap];
    if t in C {
      var p :| 0 <= p < |C| && C[p] == t;
      WithoutAt(C, t, p);
      WithoutAt(L, t, p);
      assert Cut(C[..p] + C[p + 1..], cap - 1) == Cut(L[..p] + L[p + 1..], cap - 1);
    } else {
      WithoutAbsent(C, t);
      if t in L {
        var p :| 0 <= p < |L| && L[p] == t;
        forall i | 0 <= i < cap ensures L[i] != t { assert C[i] in C; }
        assert p >= cap;
        WithoutAt(L, t, p);
        assert Cut(C, cap - 1) == Cut(L[..p] + L[p + 1..], cap - 1);
      } else {
        WithoutAbsent(L, t);
      }
    }
  }

  lemma {:induction false} RecentDistinct(h: seq<nat>)
    ensures Distinct(Recent(h))
  {
    if h != [] {
      RecentDistinct(h[..|h| - 1]);
      WithoutDistinct(Recent(h[..|h| - 1]), h[|h| - 1]);
    }
  }

  /** The bounded list holds exactly the cap most recently used distinct tags. */
  lemma {:induction false} LruIsRecent(h: seq<nat>, cap: nat)
    ensures Lru(h, cap) == Cut(Recent(h), cap)
  {
    if h != [] {
      LruIsRecent(h[..|h| - 1], cap);
      RecentDistinct(h[..|h| - 1]);
      CutUse(Recent(h[..|h| - 1]), h[|h| - 1], cap);
    }
  }

  /** Index of the last use of t. */
  function LastUse(h: seq<nat>, t: nat): (k: nat)
    requires t in h
    ensures k < |h| && h[k] == t && forall j | k < j < |h| :: h[j] != t
  {
    if h[|h| - 1] == t then |h| - 1
    else
      assert h == h[..|h| - 1] + [h[|h| - 1]];
      LastUse(h[..|h| - 1], t)
  }

  lemma {:induction false} RecentHolds(h: seq<nat>, t: nat)
    ensures t in Recent(h) <==> t in h
  {
    if h != [] {
      RecentHolds(h[..|h| - 1], t);
      assert h == h[..|h| - 1] + [h[|h| - 1]];
    }
  }

  /** Recent lists tags by falling time of last use. */
  lemma {:induction false} RecentByLastUse(h: seq<nat>, i: nat, j: nat)
    requires i < j < |Recent(h)|
    ensures var x, y := Recent(h)[i], Recent(h)[j]; x in h && y in h && LastUse(h, x) > LastUse(h, y)
  {
    hide Without;
    var x, y := Recent(h)[i], Recent(h)[j];
    RecentHolds(h, x);
    RecentHolds(h, y);
    var g, t := h[..|h| - 1], h[|h| - 1];
    var R := Recent(g);
    assert y == Without(R, t)[j - 1] && y in Without(R, t) && y != t;
    assert h == g + [t];
    if i > 0 {
      assert x == Without(R, t)[i - 1] && x in Without(R, t) && x != t;
      WithoutOrder(R, t, i - 1, j - 1);
      var a, b :| 0 <= a < b < |R| && R[a] == x && R[b] == y;
      RecentByLastUse(g, a, b);
    }
  }

  /** Removing a tag keeps the others in order. */
  lemma {:induction false} WithoutOrder(L: seq<nat>, t: nat, i: nat, j: nat)
    requires i < j < |Without(L, t)|
    ensures exists a, b :: 0 <= a < b < |L| && L[a] == Without(L, t)[i] && L[b] == Without(L, t)[j]
  {
    if L[0] == t {
      WithoutOrder(L[1..], t, i, j);
      var a, b :| 0 <= a < b < |L[1..]| && L[1..][a] == Without(L, t)[i] && L[1..][b] == Without(L, t)[j];
      assert L[a + 1] == Without(L, t)[i] && L[b + 1] == Without(L, t)[j];
    } else if i > 0 {
      WithoutOrder(L[1..], t, i - 1, j - 1);
      var a, b :| 0 <= a < b < |L[1..]| && L[1..][a] == Without(L[1..], t)[i - 1] && L[1..][b] == Without(L[1..], t)[j - 1];
      assert L[a + 1] == Without(L, t)[i] && L[b + 1] == Without(L, t)[j];
    } else {
      var y := Without(L[1..], t)[j - 1];
      assert y in L[1..];
      var b :| 0 <= b < |L[1..]| && L[1..][b] == y;
      assert L[0] == Without(L, t)[0] && L[b + 1] == y;
    }
  }

  // -------------------------------------------------------- a set of the line array

  /** The tags of the valid lines; an invalid line has tag 0. */
  function Valids(ts: seq<nat>): (r: seq<nat>)
    ensures |r| <= |ts| && 0 !in r && r == ts[..|r|] && (|r| < |ts| ==> ts[|r|] == 0)
  {
    if ts == [] || ts[0] == 0 then [] else [ts[0]] + Valids(ts[1..])
  }

  /** Valid lines come first, and no tag appears twice. */
  ghost predicate Packed(ts: seq<nat>) {
    Distinct(Valids(ts)) && forall i | |Valids(ts)| <= i < |ts| :: ts[i] == 0
  }

  /** The first position with tag t, or the length. */
  function Where(ts: seq<nat>, t: nat): (p: nat)
    ensures p <= |ts| && (p < |ts| ==> ts[p] == t) && forall i | 0 <= i < p :: ts[i] != t
  {
    if ts == [] then 0 else if ts[0] == t then 0 else 1 + Where(ts[1..], t)
  }

  /** The last position with tag t, or the length. */
  function WhereLast(ts: seq<nat>, t: nat): (p: nat)
    ensures p <= |ts| && (p < |ts| ==> ts[p] == t) && forall i | (if p < |ts| then p + 1 else 0) <= i < |ts| :: ts[i] != t
  {
    if ts == [] then 0
    else if ts[|ts| - 1] == t then |ts| - 1
    else var p := WhereLast(ts[..|ts| - 1], t); if p < |ts| - 1 then p else |ts|
  }

  /** findLinePrivate: a hit moves to the front. */
  function Found<T>(s: seq<T>, ts: seq<nat>, t: nat): (r: seq<T>)
    requires |s| == |ts|
    ensures |r| == |s|
  {
    if Where(ts, t) < |ts| then ToFront(s, Where(ts, t)) else s
  }

  /** The position findLine2Replace takes under LRU: a hit, searched from the end after
      the first position, or else the last line. */
  function Victim(ts: seq<nat>, t: nat): (p: nat)
    requires |ts| > 0
    ensures p < |ts|
  {
    if ts[0] == t then 0
    else if WhereLast(ts, t) < |ts| then WhereLast(ts, t)
    else |ts| - 1
  }

  /** The set after fillLine. */
  function Filled(ts: seq<nat>, t: nat): (r: seq<nat>)
    requires |ts| > 0
    ensures |r| == |ts|
  {
    ToFront(ts, Victim(ts, t))[0 := t]
  }

  lemma {:induction false} ValidsOf(ts: seq<nat>, n: nat)
    requires n <= |ts| && (forall i | 0 <= i < n :: ts[i] != 0) && (n < |ts| ==> ts[n] == 0)
    ensures Valids(ts) == ts[..n]
  {
    if n > 0 {
      ValidsOf(ts[1..], n - 1);
      assert ts[..n] == [ts[0]] + ts[1..][..n - 1];
    }
  }

  /** In a packed set the victim is the line with the tag; failing that an invalid line,
      or else the least recently used one. */
  lemma VictimIsLru(ts: seq<nat>, t: nat)
    requires |ts| > 0 && Packed(ts) && t != 0
    ensures var p := Victim(ts, t); var V := Valids(ts);
      if t in V then p == Where(ts, t) < |V|
      else p == |ts| - 1 && Where(ts, t) == |ts| && (if |V| < |ts| then ts[p] == 0 else ts[p] == V[|V| - 1])
  {
    var V := Valids(ts);
    if t in V {
      var k :| 0 <= k < |V| && V[k] == t;
      assert ts[k] == t;
      SameSpot(ts, t, Where(ts, t), k);
      SameSpot(ts, t, Victim(ts, t), k);
    } else {
      forall i | 0 <= i < |ts| ensures ts[i] != t {
        assert i < |V| ==> ts[i] == V[i] && V[i] in V;
      }
    }
  }

  lemma SameSpot(ts: seq<nat>, t: nat, i: nat, j: nat)
    requires Packed(ts) && t != 0 && i < |ts| && j < |ts| && ts[i] == t && ts[j] == t
    ensures i == j
  {
    var V := Valids(ts);
    assert V[i] == ts[i] && V[j] == ts[j];
  }

  lemma UseDistinct(L: seq<nat>, t: nat, cap: nat)
    requires Distinct(L)
    ensures Distinct(Use(L, t, cap))
  {
    hide Without;
    WithoutDistinct(L, t);
    assert Distinct([t] + Without(L, t));
  }

  /** A set whose first n tags are X and whose others are 0. */
  lemma PackedAs(F: seq<nat>, X: seq<nat>)
    requires |X| <= |F| && F[..|X|] == X && 0 !in X && Distinct(X) && forall i | |X| <= i < |F| :: F[i] == 0
    ensures Packed(F) && Valids(F) == X
  {
    forall i | 0 <= i < |X| ensures F[i] != 0 { assert F[i] == X[i] && X[i] in X; }
    ValidsOf(F, |X|);
  }

  /** Filling refines the abstract use. */
  lemma FillRefines(ts: seq<nat>, t: nat)
    requires |ts| > 0 && Packed(ts) && t != 0
    ensures Packed(Filled(ts, t)) && Valids(Filled(ts, t)) == Use(Valids(ts), t, |ts|)
  {
    hide Where, WhereLast, Without, Packed, Victim, Distinct;
    var V, F := Valids(ts), Filled(ts, t);
    VictimIsLru(ts, t);
    PackedParts(ts);
    UseDistinct(V, t, |ts|);
    if t in V {
      FillHit(ts, t, V, Victim(ts, t));
    } else {
      FillMiss(ts, t, V);
    }
    PackedAs(F, Use(V, t, |ts|));
  }

  lemma PackedParts(ts: seq<nat>)
    requires Packed(ts)
    ensures Distinct(Valids(ts)) && forall i | |Valids(ts)| <= i < |ts| :: ts[i] == 0
  {
  }

  lemma FillHit(ts: seq<nat>, t: nat, V: seq<nat>, p: nat)
    requires |V| <= |ts| && V == ts[..|V|] && Distinct(V) && p < |V| && ts[p] == t != 0 && 0 !in V
    requires forall i | |V| <= i < |ts| :: ts[i] == 0
    ensures var F, X := ToFront(ts, p)[0 := t], Use(V, t, |ts|);
            |X| <= |F| && F[..|X|] == X && 0 !in X && forall i | |X| <= i < |F| :: F[i] == 0
  {
    hide Without, Distinct;
    WithoutAt(V, t, p);
    var X := [t] + (V[..p] + V[p + 1..]);
    assert Use(V, t, |ts|) == X;
    assert |X| == |V|;
  }

  lemma FillMiss(ts: seq<nat>, t: nat, V: seq<nat>)
    requires |ts| > 0 && |V| <= |ts| && V == ts[..|V|] && t !in V && t != 0 && 0 !in V
    requires forall i | |V| <= i < |ts| :: ts[i] == 0
    ensures var F, X := ToFront(ts, |ts| - 1)[0 := t], Use(V, t, |ts|);
            |X| <= |F| && F[..|X|] == X && 0 !in X && forall i | |X| <= i < |F| :: F[i] == 0
  {
    hide Without;
    WithoutAbsent(V, t);
    var X := if |V| < |ts| then [t] + V else [t] + V[..|V| - 1];
    assert Use(V, t, |ts|) == X;
  }

  /** A lookup that hits refines the abstract use; one that misses changes nothing. */
  lemma FindRefines(ts: seq<nat>, t: nat)
    requires |ts| > 0 && Packed(ts) && t != 0
    ensures var F := Found(ts, ts, t);
      && Packed(F) && Valids(F) == (if t in Valids(ts) then Use(Valids(ts), t, |ts|) else Valids(ts))
  {
    VictimIsLru(ts, t);
    if t in Valids(ts) {
      FillRefines(ts, t);
      assert Found(ts, ts, t) == Filled(ts, t);
    }
  }
}
