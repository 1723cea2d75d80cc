/** The live cache on values: what every line holds after a history of reads and writes. */
module LiveModel {
  import opened LruList
  import opened Rotation

  /** A cache line; tag 0 is an invalid one, whose other fields mean nothing. */
  datatype Cell = Cell(tag: nat, st: bool, order: nat)

  /** An access to a line by its tag. */
  datatype Acc = Acc(tag: nat, write: bool)

  /** Sets and lines per set. */
  datatype Shape = Shape(sets: nat, assoc: nat) {
    predicate Ok() { sets > 0 && assoc > 0 }
  }

  function TagsOf(s: seq<Cell>): (ts: seq<nat>)
    ensures |ts| == |s| && forall i | 0 <= i < |s| :: ts[i] == s[i].tag
  {
    seq(|s|, i requires 0 <= i < |s| => s[i].tag)
  }

  /** The set after an access that gets order k. */
  function Accessed(s: seq<Cell>, a: Acc, k: nat): (r: seq<Cell>)
    requires |s| > 0
    ensures |r| == |s|
  {
    var p := Victim(TagsOf(s), a.tag);
    ToFront(s, p)[0 := Cell(a.tag, a.write || (s[p].tag == a.tag && s[p].st), k)]
  }

  // --------------------------------------------------------------------- histories

  function Tags(h: seq<Acc>): (ts: seq<nat>)
    ensures |ts| == |h| && forall i | 0 <= i < |h| :: ts[i] == h[i].tag
  {
    seq(|h|, i requires 0 <= i < |h| => h[i].tag)
  }

  /** The tags of the accesses that go to one set, in order. */
  function SetTags(h: seq<Acc>, set_: nat, sets: nat): seq<nat>
    requires sets > 0
  {
    if h == [] then []
    else
      var a, g := h[|h| - 1], h[..|h| - 1];
      if a.tag % sets == set_ then SetTags(g, set_, sets) + [a.tag] else SetTags(g, set_, sets)
  }

  /** The line with tag t is in the cache: among the assoc most recently used of its set. */
  predicate Resident(h: seq<Acc>, t: nat, c: Shape)
    requires c.Ok()
  {
    t in Lru(SetTags(h, t % c.sets, c.sets), c.assoc)
  }

  /** Written since it was last filled. */
  predicate Stored(h: seq<Acc>, t: nat, c: Shape)
    requires c.Ok()
  {
    h != [] &&
    var a, g := h[|h| - 1], h[..|h| - 1];
    if a.tag == t then a.write || (Resident(g, t, c) && Stored(g, t, c)) else Stored(g, t, c)
  }

  /** The same in one sentence: some write to t, from which on t stayed resident. */
  ghost predicate WrittenAndKept(h: seq<Acc>, t: nat, c: Shape)
    requires c.Ok()
  {
    exists j :: 0 <= j < |h| && h[j] == Acc(t, true) && KeptFrom(h, j, t, c)
  }

  ghost predicate KeptFrom(h: seq<Acc>, j: nat, t: nat, c: Shape)
    requires c.Ok()
  {
    forall k | j < k <= |h| :: Resident(h[..k], t, c)
  }

  /** Only its own access brings a line in. */
  lemma StaysOut(h: seq<Acc>, t: nat, c: Shape)
    requires c.Ok() && h != [] && h[|h| - 1].tag != t && Resident(h, t, c)
    ensures Resident(h[..|h| - 1], t, c)
  {
    hide Without;
    var a := h[|h| - 1];
    var S := SetTags(h[..|h| - 1], t % c.sets, c.sets);
    if a.tag % c.sets == t % c.sets {
      assert SetTags(h, t % c.sets, c.sets) == S + [a.tag];
      assert (S + [a.tag])[..|S|] == S;
      UseKeeps(Lru(S, c.assoc), a.tag, c.assoc, t);
    }
  }

  lemma UseKeeps(L: seq<nat>, t: nat, cap: nat, x: nat)
    requires x in Use(L, t, cap) && x != t
    ensures x in L
  {
  }

  /** For a resident line the two definitions of "written since filled" agree. */
  lemma {:induction false} StoredMeans(h: seq<Acc>, t: nat, c: Shape)
    requires c.Ok() && Resident(h, t, c)
    ensures Stored(h, t, c) <==> WrittenAndKept(h, t, c)
    decreases |h|
  {
    hide Resident;
    if h == [] {
      EmptyOut(t, c);
    } else {
      var a, g := h[|h| - 1], h[..|h| - 1];
      assert h[..|h|] == h;
      if a.tag != t {
        StaysOut(h, t, c);
        StoredMeans(g, t, c);
        SameWrite(h, t, c);
      } else if Resident(g, t, c) {
        StoredMeans(g, t, c);
        SameWrite(h, t, c);
      } else {
        FreshFill(h, t, c);
      }
    }
  }

  lemma EmptyOut(t: nat, c: Shape)
    requires c.Ok()
    ensures !Resident([], t, c)
  {
  }

  /** The line stays from g to h: a write kept through g is kept through h, and back. */
  lemma SameWrite(h: seq<Acc>, t: nat, c: Shape)
    requires c.Ok() && h != [] && Resident(h, t, c) && Resident(h[..|h| - 1], t, c)
    ensures WrittenAndKept(h, t, c) <==> (WrittenAndKept(h[..|h| - 1], t, c) || h[|h| - 1] == Acc(t, true))
  {
    hide Resident;
    var n, g := |h| - 1, h[..|h| - 1];
    assert h[..|h|] == h;
    if WrittenAndKept(g, t, c) {
      var j :| 0 <= j < |g| && g[j] == Acc(t, true) && KeptFrom(g, j, t, c);
      forall k | j < k <= |h| ensures Resident(h[..k], t, c) {
        if k <= n { PrefixOf(h, k); }
      }
      assert h[j] == Acc(t, true) && KeptFrom(h, j, t, c);
    }
    if h[n] == Acc(t, true) {
      assert KeptFrom(h, n, t, c);
    }
    if WrittenAndKept(h, t, c) {
      var j :| 0 <= j < |h| && h[j] == Acc(t, true) && KeptFrom(h, j, t, c);
      if j < n {
        forall k | j < k <= n ensures Resident(g[..k], t, c) { PrefixOf(h, k); }
        assert g[j] == Acc(t, true) && KeptFrom(g, j, t, c);
      }
    }
  }

  lemma PrefixOf(h: seq<Acc>, k: nat)
    requires |h| > 0 && k <= |h| - 1
    ensures h[..|h| - 1][..k] == h[..k]
  {
  }

  /** After a fill only the filling access itself can have written the line. */
  lemma FreshFill(h: seq<Acc>, t: nat, c: Shape)
    requires c.Ok() && h != [] && h[|h| - 1].tag == t && Resident(h, t, c)
    ensures h[|h| - 1].write ==> WrittenAndKept(h, t, c)
    ensures WrittenAndKept(h, t, c) ==> h[|h| - 1].write || Resident(h[..|h| - 1], t, c)
  {
    hide Resident;
    var n := |h| - 1;
    assert h[..|h|] == h;
    if h[n].write {
      assert h[n] == Acc(t, true) && KeptFrom(h, n, t, c);
    }
    if WrittenAndKept(h, t, c) {
      var j :| 0 <= j < |h| && h[j] == Acc(t, true) && KeptFrom(h, j, t, c);
      assert j < n ==> Resident(h[..n], t, c);
    }
  }

  // ------------------------------------------------------------------ the invariant

  /** A set of the cache after history h: the most recently used tags first, each with
      the time of its last access and whether it was written since it was filled. */
  ghost predicate Holds(s: seq<Cell>, h: seq<Acc>, set_: nat, c: Shape)
    requires c.Ok()
  {
    && |s| == c.assoc && Packed(TagsOf(s)) && Valids(TagsOf(s)) == Lru(SetTags(h, set_, c.sets), c.assoc)
    && forall i | 0 <= i < |s| && s[i].tag != 0 :: CellOk(s[i], h, set_, c)
  }

  ghost predicate CellOk(x: Cell, h: seq<Acc>, set_: nat, c: Shape)
    requires c.Ok()
  {
    && x.tag % c.sets == set_ && x.tag in Tags(h) && x.order == LastUse(Tags(h), x.tag)
    && (x.st <==> Stored(h, x.tag, c))
  }

  lemma StartHolds(s: seq<Cell>, set_: nat, c: Shape)
    requires c.Ok() && |s| == c.assoc && forall i | 0 <= i < |s| :: s[i].tag == 0
    ensures Holds(s, [], set_, c)
  {
    ValidsOf(TagsOf(s), 0);
  }

  lemma TagsExtend(h: seq<Acc>, a: Acc)
    ensures Tags(h + [a]) == Tags(h) + [a.tag]
  {
  }

  /** An access elsewhere leaves a cell's description true. */
  lemma OtherCell(x: Cell, h: seq<Acc>, a: Acc, set_: nat, c: Shape)
    requires c.Ok() && CellOk(x, h, set_, c) && a.tag != x.tag
    ensures CellOk(x, h + [a], set_, c)
  {
    hide Resident, Lru;
    TagsExtend(h, a);
    var T := Tags(h) + [a.tag];
    assert T[..|T| - 1] == Tags(h);
    assert (h + [a])[..|h|] == h;
  }

  lemma NewCell(h: seq<Acc>, a: Acc, st: bool, c: Shape)
    requires c.Ok() && (st <==> a.write || (Resident(h, a.tag, c) && Stored(h, a.tag, c)))
    ensures CellOk(Cell(a.tag, st, |h|), h + [a], a.tag % c.sets, c)
  {
    hide Resident, Lru;
    TagsExtend(h, a);
    assert (h + [a])[..|h|] == h;
    assert (Tags(h) + [a.tag])[|h|] == a.tag;
  }

  /** An access to another set changes nothing in this one. */
  lemma OtherSet(s: seq<Cell>, h: seq<Acc>, a: Acc, set_: nat, c: Shape)
    requires c.Ok() && Holds(s, h, set_, c) && a.tag % c.sets != set_
    ensures Holds(s, h + [a], set_, c)
  {
    hide CellOk, Lru, Packed;
    assert (h + [a])[..|h|] == h;
    forall i | 0 <= i < |s| && s[i].tag != 0 ensures CellOk(s[i], h + [a], set_, c) {
      assert CellOk(s[i], h, set_, c);
      CellInSet(s[i], h, set_, c);
      OtherCell(s[i], h, a, set_, c);
    }
  }

  lemma CellInSet(x: Cell, h: seq<Acc>, set_: nat, c: Shape)
    requires c.Ok() && CellOk(x, h, set_, c)
    ensures x.tag % c.sets == set_
  {
  }

  lemma AccessedTags(s: seq<Cell>, a: Acc, k: nat)
    requires |s| > 0
    ensures TagsOf(Accessed(s, a, k)) == Filled(TagsOf(s), a.tag)
  {
    hide Victim, Valids;
  }

  /** An access to this set keeps it as described. */
  lemma AccessHolds(s: seq<Cell>, h: seq<Acc>, a: Acc, c: Shape)
    requires c.Ok() && a.tag != 0 && Holds(s, h, a.tag % c.sets, c)
    ensures Holds(Accessed(s, a, |h|), h + [a], a.tag % c.sets, c)
  {
    hide CellOk, Lru, Packed, Use, Filled, WhereLast, Where, Stored;
    var set_, t := a.tag % c.sets, a.tag;
    var ts, S := TagsOf(s), SetTags(h, set_, c.sets);
    assert (h + [a])[..|h|] == h;
    assert SetTags(h + [a], set_, c.sets) == S + [t];
    LruStep(S, t, c.assoc);
    FillRefines(ts, t);
    VictimIsLru(ts, t);
    AccessedTags(s, a, |h|);
    var p, r := Victim(ts, t), Accessed(s, a, |h|);
    HitIsResident(s, h, a, c);
    NewCell(h, a, r[0].st, c);
    forall i | 0 < i < |r| && r[i].tag != 0 ensures CellOk(r[i], h + [a], set_, c) {
      var j := if i <= p then i - 1 else i;
      assert r[i] == s[j] && CellOk(s[j], h, set_, c);
      Elsewhere(ts, t, j);
      OtherCell(s[j], h, a, set_, c);
    }
  }

  lemma LruStep(S: seq<nat>, t: nat, cap: nat)
    ensures Lru(S + [t], cap) == Use(Lru(S, cap), t, cap)
  {
    assert (S + [t])[..|S|] == S;
  }

  /** Away from the victim's position there is no second line with the tag. */
  lemma Elsewhere(ts: seq<nat>, t: nat, j: nat)
    requires |ts| > 0 && Packed(ts) && t != 0 && j < |ts| && j != Victim(ts, t)
    ensures ts[j] != t
  {
    VictimIsLru(ts, t);
    var p := Victim(ts, t);
    if ts[j] == t {
      if t in Valids(ts) {
        SameSpot(ts, t, p, j);
      }
    }
  }

  /** The flag an access leaves at the front is the history's. */
  lemma HitIsResident(s: seq<Cell>, h: seq<Acc>, a: Acc, c: Shape)
    requires c.Ok() && a.tag != 0 && Holds(s, h, a.tag % c.sets, c)
    ensures var p := Victim(TagsOf(s), a.tag);
      (a.write || (s[p].tag == a.tag && s[p].st)) <==> (a.write || (Resident(h, a.tag, c) && Stored(h, a.tag, c)))
  {
    hide Lru, WhereLast;
    var ts, t := TagsOf(s), a.tag;
    VictimIsLru(ts, t);
    var p := Victim(ts, t);
    if t in Valids(ts) {
      assert s[p].tag == t && CellOk(s[p], h, t % c.sets, c);
    } else {
      assert s[p].tag != t;
    }
  }
}
