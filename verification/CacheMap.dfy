/** A write-back cache as a finite map from line numbers to dirty bits, with the log of
    what it was asked and what it asked of its miss handler. */
module CacheMap {

  datatype Event =
    /** An access of some bytes to a line of this cache. */
    | In(line: nat, store: bool, bytes: nat)
    /** An access this cache makes to the level behind it, at an address. */
    | Out(addr: nat, store: bool, bytes: nat)

  datatype State = State(lines: map<nat, bool>, log: seq<Event>)

  datatype Evicted = Nothing | Line(line: nat)

  function Removed(m: map<nat, bool>, x: nat): (r: map<nat, bool>)
    ensures forall y :: y in r <==> y in m && y != x
    ensures forall y | y in r :: r[y] == m[y]
  {
    map y | y in m && y != x :: m[y]
  }

  /** What a miss sends: the victim's line base as a write if it was dirty, then the
      missing line's base as a read. */
  function Sends(m: map<nat, bool>, x: nat, out: Evicted, linesz: nat): seq<Event> {
    (if out.Line? && out.line in m && m[out.line] then [Out(out.line * linesz, true, linesz)] else []) + [Out(x * linesz, false, linesz)]
  }

  /** One access of some bytes to line x that leads from s to t. */
  ghost predicate Step(s: State, t: State, x: nat, store: bool, bytes: nat, linesz: nat) {
    if x in s.lines then
      t.lines == s.lines[x := s.lines[x] || store] && t.log == s.log + [In(x, store, bytes)]
    else
      exists out: Evicted :: Missed(s, t, x, store, bytes, linesz, out)
  }

  ghost predicate Missed(s: State, t: State, x: nat, store: bool, bytes: nat, linesz: nat, out: Evicted) {
    && (out.Line? ==> out.line in s.lines)
    && t.lines == (if out.Line? then Removed(s.lines, out.line) else s.lines)[x := store]
    && t.log == s.log + [In(x, store, bytes)] + Sends(s.lines, x, out, linesz)
  }

  // --------------------------------------------------------------- no store is lost

  predicate StoresTo(e: Event, x: nat) { e.In? && e.line == x && e.store }

  /** The last store to x is at i. */
  ghost predicate LastStore(log: seq<Event>, x: nat, i: nat) {
    i < |log| && StoresTo(log[i], x) && forall k | i < k < |log| :: !StoresTo(log[k], x)
  }

  /** After i the base of line x was written back. */
  ghost predicate WrittenBack(log: seq<Event>, x: nat, i: nat, linesz: nat) {
    exists k :: i < k < |log| && log[k] == Out(x * linesz, true, linesz)
  }

  /** A line ever stored to is dirty here or was written back since its last store. */
  ghost predicate NoneLost(s: State, linesz: nat) {
    forall x: nat, i: nat | LastStore(s.log, x, i) :: (x in s.lines && s.lines[x]) || WrittenBack(s.log, x, i, linesz)
  }

  lemma StepKeepsStores(s: State, t: State, x: nat, store: bool, bytes: nat, linesz: nat)
    requires NoneLost(s, linesz) && Step(s, t, x, store, bytes, linesz)
    ensures NoneLost(t, linesz)
  {
    forall y: nat, i: nat | LastStore(t.log, y, i)
      ensures (y in t.lines && t.lines[y]) || WrittenBack(t.log, y, i, linesz)
    {
      if x in s.lines {
        HitKeeps(s, t, x, store, bytes, linesz, y, i);
      } else {
        var out: Evicted :| Missed(s, t, x, store, bytes, linesz, out);
        MissKeeps(s, t, x, store, bytes, linesz, out, y, i);
      }
    }
  }

  lemma StoreBefore(log: seq<Event>, more: seq<Event>, y: nat, i: nat)
    requires LastStore(log + more, y, i) && i < |log|
    ensures LastStore(log, y, i)
  {
    forall k | i < k < |log| ensures !StoresTo(log[k], y) {
      assert (log + more)[k] == log[k];
    }
  }

  lemma StillWritten(log: seq<Event>, more: seq<Event>, y: nat, i: nat, linesz: nat)
    requires WrittenBack(log, y, i, linesz)
    ensures WrittenBack(log + more, y, i, linesz)
  {
    var k :| i < k < |log| && log[k] == Out(y * linesz, true, linesz);
    assert (log + more)[k] == Out(y * linesz, true, linesz);
  }

  lemma HitKeeps(s: State, t: State, x: nat, store: bool, bytes: nat, linesz: nat, y: nat, i: nat)
    requires NoneLost(s, linesz) && Step(s, t, x, store, bytes, linesz) && x in s.lines && LastStore(t.log, y, i)
    ensures (y in t.lines && t.lines[y]) || WrittenBack(t.log, y, i, linesz)
  {
    if i < |s.log| {
      StoreBefore(s.log, [In(x, store, bytes)], y, i);
      if WrittenBack(s.log, y, i, linesz) {
        StillWritten(s.log, [In(x, store, bytes)], y, i, linesz);
      }
    }
  }

  lemma MissKeeps(s: State, t: State, x: nat, store: bool, bytes: nat, linesz: nat, out: Evicted, y: nat, i: nat)
    requires NoneLost(s, linesz) && x !in s.lines && Missed(s, t, x, store, bytes, linesz, out) && LastStore(t.log, y, i)
    ensures (y in t.lines && t.lines[y]) || WrittenBack(t.log, y, i, linesz)
  {
    var sends := Sends(s.lines, x, out, linesz);
    var more := [In(x, store, bytes)] + sends;
    assert t.log == s.log + more;
    if i < |s.log| {
      StoreBefore(s.log, more, y, i);
      if WrittenBack(s.log, y, i, linesz) {
        StillWritten(s.log, more, y, i, linesz);
      } else if out == Line(y) {
        assert sends[0] == Out(y * linesz, true, linesz);
        assert t.log[|s.log| + 1] == Out(y * linesz, true, linesz);
      }
    } else {
      assert t.log[i] == more[i - |s.log|];
    }
  }

  // ---------------------------------------------------------------------- counting

  /** What is counted: accesses, or their bytes. */
  datatype Unit = Accesses | Bytes

  function Weight(e: Event, unit: Unit): nat { if unit == Bytes then e.bytes else 1 }

  function Ins(log: seq<Event>, store: bool, unit: Unit): nat {
    if log == [] then 0
    else
      var e := log[|log| - 1];
      Ins(log[..|log| - 1], store, unit) + (if e.In? && e.store == store then Weight(e, unit) else 0)
  }

  function Outs(log: seq<Event>, store: bool, unit: Unit): nat {
    if log == [] then 0
    else
      var e := log[|log| - 1];
      Outs(log[..|log| - 1], store, unit) + (if e.Out? && e.store == store then Weight(e, unit) else 0)
  }

  lemma OneMore(log: seq<Event>, e: Event, store: bool, unit: Unit)
    ensures Ins(log + [e], store, unit) == Ins(log, store, unit) + (if e.In? && e.store == store then Weight(e, unit) else 0)
    ensures Outs(log + [e], store, unit) == Outs(log, store, unit) + (if e.Out? && e.store == store then Weight(e, unit) else 0)
  {
    assert (log + [e])[..|log|] == log;
  }

  /** The requests one level sends, as the lines of a next level with lines of next bytes. */
  function Requests(log: seq<Event>, next: nat): (r: seq<Event>)
    requires next > 0
  {
    if log == [] then []
    else
      var e, g := log[|log| - 1], log[..|log| - 1];
      if e.Out? then Requests(g, next) + [In(e.addr / next, e.store, e.bytes)] else Requests(g, next)
  }

  /** The accesses a level received. */
  function Received(log: seq<Event>): (r: seq<Event>) {
    if log == [] then []
    else
      var e, g := log[|log| - 1], log[..|log| - 1];
      if e.In? then Received(g) + [e] else Received(g)
  }

  lemma OneRequest(log: seq<Event>, e: Event, next: nat)
    requires next > 0
    ensures Requests(log + [e], next) == Requests(log, next) + (if e.Out? then [In(e.addr / next, e.store, e.bytes)] else [])
    ensures Received(log + [e]) == Received(log) + (if e.In? then [e] else [])
  {
    assert (log + [e])[..|log|] == log;
  }

  lemma {:induction false} RequestsAppend(a: seq<Event>, b: seq<Event>, next: nat)
    requires next > 0
    ensures Requests(a + b, next) == Requests(a, next) + Requests(b, next)
    decreases |b|
  {
    if b != [] {
      var g, e := b[..|b| - 1], b[|b| - 1];
      RequestsAppend(a, g, next);
      OneRequest(a + g, e, next);
      assert a + b == a + g + [e];
    } else {
      assert a + b == a;
    }
  }

  lemma {:induction false} ReceivedCount(log: seq<Event>, store: bool, unit: Unit)
    ensures Ins(Received(log), store, unit) == Ins(log, store, unit)
  {
    if log != [] {
      var e, g := log[|log| - 1], log[..|log| - 1];
      ReceivedCount(g, store, unit);
      if e.In? {
        OneMore(Received(g), e, store, unit);
      }
    }
  }

  lemma {:induction false} RequestCount(log: seq<Event>, next: nat, store: bool, unit: Unit)
    requires next > 0
    ensures Ins(Requests(log, next), store, unit) == Outs(log, store, unit)
  {
    if log != [] {
      var e, g := log[|log| - 1], log[..|log| - 1];
      RequestCount(g, next, store, unit);
      if e.Out? {
        OneMore(Requests(g, next), In(e.addr / next, e.store, e.bytes), store, unit);
      }
    }
  }

  /** A level fed only by this one has seen what it sent, counted in accesses or bytes. */
  lemma FedCounts(log: seq<Event>, behind: seq<Event>, next: nat, store: bool, unit: Unit)
    requires next > 0 && Received(behind) == Requests(log, next)
    ensures Ins(behind, store, unit) == Outs(log, store, unit)
  {
    ReceivedCount(behind, store, unit);
    RequestCount(log, next, store, unit);
  }

  // ------------------------------------------------------- a level fed by several

  /** The accesses that came from feeder i, where origin says who sent each. */
  function From(received: seq<Event>, origin: seq<nat>, i: nat): (r: seq<Event>)
    requires |origin| == |received|
  {
    if received == [] then []
    else
      var n := |received| - 1;
      var g := From(received[..n], origin[..n], i);
      if origin[n] == i then g + [received[n]] else g
  }

  /** A level has received an interleaving of what its feeders sent, and nothing else. */
  ghost predicate Interleaved(received: seq<Event>, origin: seq<nat>, logs: seq<seq<Event>>, next: nat) {
    && next > 0 && |origin| == |received| && (forall k | 0 <= k < |origin| :: origin[k] < |logs|)
    && forall i | 0 <= i < |logs| :: From(received, origin, i) == Requests(logs[i], next)
  }

  lemma {:induction false} FromAppend(received: seq<Event>, origin: seq<nat>, more: seq<Event>, who: nat, i: nat)
    requires |origin| == |received|
    ensures From(received + more, origin + seq(|more|, k => who), i) == From(received, origin, i) + (if who == i then more else [])
    decreases |more|
  {
    var all := received + more;
    var from := origin + seq(|more|, k => who);
    if more == [] {
      assert all == received && from == origin;
    } else {
      var n := |more| - 1;
      FromAppend(received, origin, more[..n], who, i);
      assert all[..|all| - 1] == received + more[..n];
      assert from[..|all| - 1] == origin + seq(n, k => who);
      assert more == more[..n] + [more[n]];
    }
  }

  /** Feeder i sends the requests of its new events. */
  lemma StaysInterleaved(received: seq<Event>, origin: seq<nat>, logs: seq<seq<Event>>, next: nat, i: nat, more: seq<Event>)
    requires Interleaved(received, origin, logs, next) && i < |logs|
    ensures var sent := Requests(more, next);
            Interleaved(received + sent, origin + seq(|sent|, k => i), logs[i := logs[i] + more], next)
  {
    hide From, Requests;
    var sent, logs' := Requests(more, next), logs[i := logs[i] + more];
    forall j | 0 <= j < |logs|
      ensures From(received + sent, origin + seq(|sent|, k => i), j) == Requests(logs'[j], next)
    {
      FromAppend(received, origin, sent, i, j);
      RequestsAppend(logs[i], more, next);
    }
  }

  function Sum(s: seq<nat>): nat {
    if s == [] then 0 else Sum(s[..|s| - 1]) + s[|s| - 1]
  }

  lemma {:induction false} SumUpdate(s: seq<nat>, i: nat, v: nat)
    requires i < |s|
    ensures Sum(s[i := v]) == Sum(s) - s[i] + v
  {
    var n := |s| - 1;
    var u := s[i := v];
    if i < n {
      SumUpdate(s[..n], i, v);
      assert u[..n] == s[..n][i := v];
    } else {
      assert u[..n] == s[..n];
    }
  }

  lemma {:induction false} SumZero(s: seq<nat>)
    requires forall i | 0 <= i < |s| :: s[i] == 0
    ensures Sum(s) == 0
  {
    if s != [] {
      SumZero(s[..|s| - 1]);
    }
  }

  /** Counting by feeder counts everything. */
  lemma {:induction false} FromCounts(received: seq<Event>, origin: seq<nat>, counts: seq<nat>, store: bool, unit: Unit)
    requires |origin| == |received| && forall k | 0 <= k < |origin| :: origin[k] < |counts|
    requires forall i | 0 <= i < |counts| :: counts[i] == Ins(From(received, origin, i), store, unit)
    ensures Sum(counts) == Ins(received, store, unit)
    decreases |received|
  {
    if received == [] {
      SumZero(counts);
    } else {
      var n := |received| - 1;
      var e, o := received[n], origin[n];
      var earlier := counts[o := Ins(From(received[..n], origin[..n], o), store, unit)];
      OneMore(From(received[..n], origin[..n], o), e, store, unit);
      OneMore(received[..n], e, store, unit);
      assert received[..n] + [e] == received;
      FromCounts(received[..n], origin[..n], earlier, store, unit);
      SumUpdate(counts, o, earlier[o]);
    }
  }

  /** A level fed by several has seen what they sent together, counted in accesses or
      bytes. */
  lemma SharedCounts(log: seq<Event>, origin: seq<nat>, logs: seq<seq<Event>>, next: nat, sent: seq<nat>, store: bool, unit: Unit)
    requires Interleaved(Received(log), origin, logs, next)
    requires |sent| == |logs| && forall i | 0 <= i < |logs| :: sent[i] == Outs(logs[i], store, unit)
    ensures Ins(log, store, unit) == Sum(sent)
  {
    hide From, Requests, Received, Ins, Outs, Sum;
    forall i | 0 <= i < |logs| ensures sent[i] == Ins(From(Received(log), origin, i), store, unit) {
      RequestCount(logs[i], next, store, unit);
    }
    FromCounts(Received(log), origin, sent, store, unit);
    ReceivedCount(log, store, unit);
  }

  // -------------------------------------------------------------------------- runs

  /** A run of accesses through the states ss. */
  ghost predicate Run(ss: seq<State>, xs: seq<(nat, bool, nat)>, linesz: nat) {
    |ss| == |xs| + 1 && ss[0] == State(map[], []) && forall k | 0 <= k < |xs| :: Step(ss[k], ss[k + 1], xs[k].0, xs[k].1, xs[k].2, linesz)
  }

  lemma {:induction false} RunKeepsStores(ss: seq<State>, xs: seq<(nat, bool, nat)>, linesz: nat)
    requires Run(ss, xs, linesz)
    ensures NoneLost(ss[|xs|], linesz)
    decreases |xs|
  {
    hide NoneLost, Step;
    if xs != [] {
      var n := |xs| - 1;
      assert xs[..n] + [xs[n]] == xs;
      RunKeepsStores(ss[..n + 1], xs[..n], linesz);
      assert Step(ss[n], ss[n + 1], xs[n].0, xs[n].1, xs[n].2, linesz);
      StepKeepsStores(ss[n], ss[n + 1], xs[n].0, xs[n].1, xs[n].2, linesz);
    } else {
      NothingYet(linesz);
    }
  }

  lemma NothingYet(linesz: nat)
    ensures NoneLost(State(map[], []), linesz)
  {
  }
}
