/** Several caches in front of one, as spike puts its instruction and data caches in
    front of the second level. */
module Hierarchy {
  import opened CacheMap
  import opened Level = CacheSim

  ghost function Footprint(fronts: seq<CacheSim>): (r: set<object>)
    reads fronts
    ensures forall i | 0 <= i < |fronts| :: fronts[i].Repr <= r
  {
    if fronts == [] then {} else Footprint(fronts[..|fronts| - 1]) + fronts[|fronts| - 1].Repr
  }

  /** What belongs to c is not used by d. */
  ghost predicate Apart(c: CacheSim, d: CacheSim)
    reads d
  {
    c !in d.Repr && c.tags !in d.Repr && c.tags.tags !in d.Repr
  }

  ghost predicate Separate(fronts: seq<CacheSim>)
    reads fronts
  {
    forall i, j | 0 <= i < |fronts| && 0 <= j < |fronts| && i != j :: Apart(fronts[i], fronts[j])
  }

  /** In front of a cache that others are in front of too. */
  ghost predicate Attached(c: CacheSim, behind: CacheSim)
    reads c
  {
    c.missHandler == behind && c.shared
  }

  /** set_miss_handler for each front. */
  method Attach(fronts: seq<CacheSim>, behind: CacheSim)
    requires behind.Valid()
    requires forall i | 0 <= i < |fronts| :: fronts[i].Valid() && fronts[i].log == [] && fronts[i].missHandler == null
    requires forall i | 0 <= i < |fronts| :: fronts[i].Repr !! behind.Repr
    requires forall i, j | 0 <= i < |fronts| && 0 <= j < |fronts| && i != j :: fronts[i].Repr !! fronts[j].Repr
    modifies fronts
    ensures behind.Valid() && behind.log == old(behind.log) && Separate(fronts)
    ensures forall i | 0 <= i < |fronts| :: fronts[i].Valid() && Attached(fronts[i], behind) && fronts[i].log == []
  {
    hide CacheSim.Valid;
    ghost var reprs := seq(|fronts|, i requires 0 <= i < |fronts| => old(fronts[i].Repr));
    forall i | 0 <= i < |fronts| ensures fronts[i] in reprs[i] && fronts[i].tags in reprs[i] && fronts[i].tags.tags in reprs[i] { fronts[i].Parts(); }
    behind.Parts();
    for n := 0 to |fronts|
      invariant behind.Valid() && behind.Repr == old(behind.Repr) && behind.log == old(behind.log)
      invariant forall i | 0 <= i < n :: fronts[i].Valid() && Attached(fronts[i], behind) && fronts[i].log == [] && fronts[i].Repr == reprs[i] + behind.Repr
      invariant forall i | n <= i < |fronts| :: fronts[i].Valid() && fronts[i].log == [] && fronts[i].missHandler == null && fronts[i].Repr == reprs[i]
    {
      fronts[n].SetMissHandler(behind, true);
    }
  }

  class Hierarchy {
    const fronts: seq<CacheSim>
    const behind: CacheSim
    /** Which front sent each access the cache behind received, and the fronts' logs. */
    ghost var origin: seq<nat>
    ghost var logs: seq<seq<Event>>
    ghost var Repr: set<object>

    ghost predicate Valid()
      reads this, Repr
    {
      && behind in Repr && behind.Repr <= Repr && behind.Valid() && |logs| == |fronts|
      && (forall i | 0 <= i < |fronts| :: fronts[i] in Repr && fronts[i].Repr <= Repr && this !in fronts[i].Repr)
      && (forall i | 0 <= i < |fronts| :: Attached(fronts[i], behind) && fronts[i].Valid() && logs[i] == fronts[i].log)
      && Separate(fronts)
      && Interleaved(Received(behind.log), origin, logs, behind.linesz)
    }

    /** Caches that have one behind them, none of which has been accessed. */
    constructor (fronts: seq<CacheSim>, behind: CacheSim)
      requires behind.Valid() && Received(behind.log) == []
      requires forall i | 0 <= i < |fronts| :: fronts[i].Valid() && Attached(fronts[i], behind) && fronts[i].log == []
      requires Separate(fronts)
      ensures Valid() && this.fronts == fronts && this.behind == behind
    {
      this.fronts, this.behind := fronts, behind;
      origin, logs := [], seq(|fronts|, i => []);
      Repr := behind.Repr + Footprint(fronts);
      new;
      hide CacheSim.Valid, Received;
      behind.Parts();
    }

    method Access(i: nat, addr: nat, bytes: nat, store: bool)
      requires Valid() && i < |fronts| && addr < WORD
      modifies this, Repr
      ensures Valid() && Repr == old(Repr)
      ensures Step(old(fronts[i].Now()), fronts[i].Now(), LineOf(addr, fronts[i].linesz), store, bytes, fronts[i].linesz)
      ensures forall j | 0 <= j < |fronts| && j != i :: fronts[j].Now() == old(fronts[j].Now())
      ensures old(origin) <= origin && forall k | |old(origin)| <= k < |origin| :: origin[k] == i
    {
      hide CacheSim.Valid, CacheSim.Sound, Interleaved, Step, Received, Requests;
      ghost var front := fronts[i];
      ghost var was := front.log;
      forall j | 0 <= j < |fronts| ensures fronts[j].Linked() && fronts[j].Sound() { fronts[j].Parts(); }
      fronts[i].Access(addr, bytes, store);
      front.Parts();
      forall j | 0 <= j < |fronts| && j != i
        ensures fronts[j].Valid() && fronts[j].Now() == old(fronts[j].Now()) && fronts[j].Repr == old(fronts[j].Repr) && Attached(fronts[j], behind)
      {
        assert old(Apart(fronts[j], fronts[i])) && old(Attached(fronts[j], behind));
        fronts[j].Whole();
      }
      forall j, k | 0 <= j < |fronts| && 0 <= k < |fronts| && j != k ensures Apart(fronts[j], fronts[k]) {
        assert old(Apart(fronts[j], fronts[k]));
      }
      ghost var more := front.log[|was|..];
      StaysInterleaved(old(Received(behind.log)), origin, logs, behind.linesz, i, more);
      origin := origin + seq(|Requests(more, behind.linesz)|, k => i);
      logs := logs[i := front.log];
      assert front.BehindRepr() == behind.Repr == old(behind.Repr);
      assert front.log == was + more;
      assert Received(behind.log) == old(Received(behind.log)) + Requests(more, behind.linesz);
      assert Interleaved(Received(behind.log), origin, logs, behind.linesz);
      assert forall j | 0 <= j < |fronts| :: fronts[j].Valid() && logs[j] == fronts[j].log;
      assert behind.Valid();
    }

    /** No level loses a store, whoever feeds it. */
    lemma NoStoreLost()
      requires Valid()
      ensures NoneLost(behind.Now(), behind.linesz)
      ensures forall i | 0 <= i < |fronts| :: NoneLost(fronts[i].Now(), fronts[i].linesz)
    {
    }

    /** How often each front sent something behind, and how many bytes: a line each time. */
    ghost function Sent(store: bool, unit: Unit): (s: seq<nat>)
      reads set i | 0 <= i < |fronts| :: fronts[i]
      ensures |s| == |fronts|
      ensures forall i | 0 <= i < |s| ::
        s[i] == (if unit == Bytes then fronts[i].linesz else 1) * (if store then fronts[i].writebacks else fronts[i].readMisses + fronts[i].writeMisses)
    {
      seq(|fronts|, i requires 0 <= i < |fronts| reads set k | 0 <= k < |fronts| :: fronts[k] =>
        (if unit == Bytes then fronts[i].linesz else 1) * (if store then fronts[i].writebacks else fronts[i].readMisses + fronts[i].writeMisses))
    }

    /** The writes the shared cache has seen are its feeders' write-backs and the reads
        their misses, added up; so are the bytes, a feeder's line for each. */
    lemma SumsUp()
      requires Valid()
      ensures behind.writeAccesses == Sum(Sent(true, Accesses)) && behind.readAccesses == Sum(Sent(false, Accesses))
      ensures behind.bytesWritten == Sum(Sent(true, Bytes)) && behind.bytesRead == Sum(Sent(false, Bytes))
    {
      hide Interleaved, Received, Ins, Outs, NoneLost, Sum;
      forall store: bool, unit: Unit ensures Ins(behind.log, store, unit) == Sum(Sent(store, unit)) {
        SharedCounts(behind.log, origin, logs, behind.linesz, Sent(store, unit), store, unit);
      }
    }
  }
}
