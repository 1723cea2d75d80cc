/** Operation and Dumper: building, writing and reading trace records. */
module Dumper {
  import opened Powers
  import opened TraceRecord

  // ------------------------------------------------------- bytes of a number, one by one

  lemma {:induction false} LeAppend(bs: seq<Byte>, b: Byte)
    ensures LeValue(bs + [b]) == LeValue(bs) + b * Pow256(|bs|)
  {
    if bs != [] {
      LeAppend(bs[1..], b);
      assert (bs + [b])[1..] == bs[1..] + [b];
      var p := Pow256(|bs| - 1);
      assert 256 * (LeValue(bs[1..]) + b * p) == 256 * LeValue(bs[1..]) + b * (256 * p);
    } else {
      assert [b][1..] == [];
    }
  }

  lemma SpanNext(bs: seq<Byte>, i: nat, n: nat)
    requires bs != []
    ensures Span(bs, i, n + 1) == Span(bs, i, n) + [ByteAt(bs, i + n)]
  {
  }

  lemma {:induction false} WordsNext(s: seq<Byte>, t: seq<Byte>)
    requires |s| % 8 == 0 && 0 < |t| <= 8
    ensures Words(s + t) == Words(s) + [LeValue(t)]
    decreases |s|
  {
    if s == [] {
      assert s + t == t;
    } else {
      WordsNext(s[8..], t);
      assert (s + t)[..8] == s[..8] && (s + t)[8..] == s[8..] + t;
      if |s| == 8 {
        assert s[..8] == s && s[8..] == [];
      }
    }
  }

  // ------------------------------------------------------------------- the operation

  class Operation {
    var opCode: nat
    var pid: nat
    var delay: nat
    var pc: nat
    var addr: nat
    var val: seq<nat>
    var opNum: nat
    var opType: nat
    var dataSize: nat
    var ldData: bool

    ghost function Value(): Op
      reads this
    {
      Op(opCode, pid, delay, pc, addr, val, opNum, opType, dataSize, ldData)
    }

    ghost predicate Valid()
      reads this
    {
      Consistent(Value())
    }

    constructor ()
      ensures Valid() && Value() == FRESH
    {
      opCode, pid, delay, pc, addr, val := 0, 0, 0, 0, 0, [0, 0, 0, 0, 0, 0, 0, 0];
      opNum, opType, dataSize, ldData := 0, OPTYPE_LOAD, 0, false;
    }

    /** The map lookup throws on a code no load has; the code is set by then. */
    method SetLoadOpCode(code: nat) returns (ok: bool)
      requires Valid()
      modifies this
      ensures ok <==> KindOf(LoadNum(code)) == Load
      ensures if ok then Valid() && Value() == old(Value()).(opCode := code, opNum := LoadNum(code), opType := OPTYPE_LOAD, dataSize := 0)
              else Value() == old(Value()).(opCode := code)
    {
      opCode := code;
      if LoadNum(code) == 0 { return false; }
      CodeOfLoad(code);
      opNum, opType, dataSize := LoadNum(code), OPTYPE_LOAD, 0;
      ok := true;
    }

    method SetStoreOpCode(code: nat) returns (ok: bool)
      requires Valid()
      modifies this
      ensures ok <==> KindOf(StoreNum(code)) == Store
      ensures if ok then Valid() && Value() == old(Value()).(opCode := code, opNum := StoreNum(code), opType := OPTYPE_STORE, dataSize := Width(StoreNum(code)))
              else Value() == old(Value()).(opCode := code)
      ensures ok ==> dataSize == if code == 0xFF then 0 else Pow2(code % 16 / 2)
    {
      opCode := code;
      if StoreNum(code) == 0 { return false; }
      CodeOfStore(code);
      WidthByCode(StoreNum(code));
      opNum, opType, dataSize := StoreNum(code), OPTYPE_STORE, Width(StoreNum(code));
      ok := true;
    }

    method SetLiveCacheOp()
      requires Valid()
      modifies this
      ensures Valid() && Value() == old(Value()).(opCode := 0, opNum := 0, opType := OPTYPE_LC, dataSize := 0)
    {
      opCode, opNum, opType, dataSize := 0, 0, OPTYPE_LC, 0;
    }

    method SetAddr(a: nat)
      requires Valid() && a < WORD
      modifies this`addr
      ensures Valid() && Value() == old(Value()).(addr := Aligned(a))
    {
      addr := a - a % 8;
    }

    method SetVal(words: seq<nat>)
      requires |val| == 8
      modifies this`val
      ensures val == Put(old(val), words)
    {
      ghost var was := val;
      var i := 0;
      while i < |words| && i < |val|
        invariant i <= |words| && i <= |val| == 8
        invariant forall k | 0 <= k < 8 :: val[k] == if k < i then words[k] else was[k]
      {
        val := val[i := words[i]];
        i := i + 1;
      }
      assert val == Put(was, words);
    }

    /** On anything but a load only the flag changes; a load of number 0 exits. */
    method SetLoadNeedData() returns (ok: bool)
      requires Valid()
      modifies this`ldData, this`dataSize
      ensures ok <==> opType != OPTYPE_LOAD || opNum != 0
      ensures ok ==> Valid()
      ensures Value() == old(Value()).(ldData := true, dataSize := if opType == OPTYPE_LOAD && opNum != 0 then Width(opNum) else old(dataSize))
      ensures ok && opType == OPTYPE_LOAD ==> dataSize == Pow2(opCode % 16 / 2)
    {
      ldData := true;
      if opType == OPTYPE_LOAD {
        if opNum == 0 { return false; }
        WidthByCode(opNum);
        dataSize := Width(opNum);
      }
      ok := true;
    }

    method SetLoadNoData()
      requires Valid()
      modifies this`ldData, this`dataSize
      ensures Valid() && Value() == if opType == OPTYPE_LOAD then old(Value()).(ldData := false, dataSize := 0) else old(Value())
    {
      if opType == OPTYPE_LOAD {
        ldData, dataSize := false, 0;
      }
    }

    /** The bytes of a number, by shifting and masking. */
    static method PushBytes(bs: seq<Byte>, v: nat, n: nat) returns (r: seq<Byte>)
      ensures r == bs + LeBytes(v, n)
    {
      r := bs;
      for i := 0 to n
        invariant r == bs + LeBytes(v, n)[..i]
      {
        LeAt(v, n, i);
        r := r + [v / Pow256(i) % 256];
      }
    }

    method GetBinary() returns (bs: seq<Byte>)
      requires Valid() && dataSize <= 8
      ensures bs == Encode(Value())
    {
      hide LeBytes, Pow256, CodeOf, Width;
      if opNum == 0 {
        bs := PushBytes([0], addr - addr % 8, 8);
        return;
      }
      bs := [opNum, pid % 4096 / 16, pid % 16 * 16 + delay % 4096 / 256, delay % 256];
      bs := PushBytes(bs, pc, 8);
      var word := addr - addr % 8;
      if opType == OPTYPE_LOAD && ldData {
        word := word + 1;
      }
      bs := PushBytes(bs, word, 8);
      bs := PushBytes(bs, if dataSize == 0 then 0 else val[0] % Pow256(dataSize), dataSize);
      assert bs == Header(Value()) + LeBytes(TraceRecord.Value(Value()), dataSize);
    }

    /** The number in eight bytes from position k on. */
    static method PullWord(bs: seq<Byte>, k: nat) returns (v: nat)
      requires k + 8 <= |bs|
      ensures v == LeValue(bs[k..k + 8])
    {
      v := 0;
      for i := 0 to 8
        invariant v == LeValue(bs[k..k + i])
      {
        LeAppend(bs[k..k + i], bs[k + i]);
        assert bs[k..k + i] + [bs[k + i]] == bs[k..k + (i + 1)];
        v := v + bs[k + i] * Pow256(i);
      }
    }

    /** setFromBinary, on any operation: the flag of a store stays set if it was. */
    method SetFromBinary(bs: seq<Byte>) returns (size: nat)
      requires Valid() && |bs| == 20 && (KindOf(bs[0]) == Load || KindOf(bs[0]) == Store)
      modifies this
      ensures Valid() && size == dataSize
      ensures Value() == Into(old(Value()), bs)
    {
      hide LeValue, CodeOf, Width, LoadNum, StoreNum, Pow256;
      NumOfCode(bs[0]);
      var ok;
      if KindOf(bs[0]) == Load {
        ok := SetLoadOpCode(CodeOf(bs[0]));
      } else {
        ok := SetStoreOpCode(CodeOf(bs[0]));
      }
      pid := PidOf(bs[1], bs[2]);
      delay := DelayOf(bs[2], bs[3]);
      WordFits(bs[4..12]);
      WordFits(bs[12..20]);
      assert bs[12..20] == bs[12..];
      pc := PullWord(bs, 4);
      var word := PullWord(bs, 12);
      if word % 2 == 1 {
        ok := SetLoadNeedData();
      } else {
        SetLoadNoData();
      }
      SetAddr(word);
      size := dataSize;
    }
  }

  /** Setters alone build an operation that is read back with another size: the flag
      survives a second code, the size does not. */
  method BuildMisframed() returns (op: Operation)
    ensures fresh(op) && op.Valid() && op.opNum != 0 && op.dataSize <= 8 && !WellFormed(op.Value())
    ensures FromHeader(Encode(op.Value())[..20]).dataSize != |Encode(op.Value())| - 20
  {
    hide Encode, FromHeader, LoadNum;
    LoadCode();
    op := new Operation();
    var ok := op.SetLoadOpCode(0);
    ok := op.SetLoadNeedData();
    ok := op.SetLoadOpCode(0);
    FramingExactly(op.Value());
  }

  lemma LoadCode()
    ensures KindOf(LoadNum(0)) == Load && Width(LoadNum(0)) > 0
  {
  }

  lemma WordFits(bs: seq<Byte>)
    requires |bs| == 8
    ensures LeValue(bs) < WORD
  {
    LeBound(bs);
    Pow256Eight();
  }

  lemma {:induction false} LeBound(bs: seq<Byte>)
    ensures LeValue(bs) < Pow256(|bs|)
  {
    if bs != [] {
      LeBound(bs[1..]);
    }
  }

  /** The words of a payload: eight bytes each, the last one maybe fewer. */
  method WordsOf(payload: seq<Byte>) returns (data: seq<nat>)
    ensures data == Words(payload)
  {
    hide LeValue, Words, Pow256;
    var unit: nat := 0;
    data := [];
    ghost var base := 0;
    NoWords();
    assert payload[..0] == [];
    for i := 0 to |payload|
      invariant base == 8 * |data| <= i < base + 8 && base <= |payload|
      invariant data == Words(payload[..base])
      invariant i > base ==> unit == LeValue(payload[base..i])
    {
      if i % 8 == 0 {
        unit := 0;
        assert payload[base..i] == [];
      }
      unit := AddByte(payload, base, i, unit);
      if (i + 1) % 8 == 0 {
        AddWord(payload, base, i + 1);
        data := data + [unit];
        base := base + 8;
      }
    }
    if |payload| > |data| * 8 {
      AddWord(payload, base, |payload|);
      data := data + [unit];
    }
    assert payload[..|payload|] == payload;
  }

  method AddByte(p: seq<Byte>, ghost base: nat, i: nat, unit: nat) returns (r: nat)
    requires base % 8 == 0 && base <= i < base + 8 && i < |p| && unit == LeValue(p[base..i])
    ensures r == LeValue(p[base..i + 1])
  {
    LeAppend(p[base..i], p[i]);
    assert p[base..i] + [p[i]] == p[base..i + 1];
    assert i % 8 == i - base;
    r := unit + p[i] * Pow256(i % 8);
  }

  lemma AddWord(p: seq<Byte>, base: nat, end: nat)
    requires base % 8 == 0 && base < end <= base + 8 && end <= |p|
    ensures Words(p[..end]) == Words(p[..base]) + [LeValue(p[base..end])]
  {
    hide Words, LeValue;
    WordsNext(p[..base], p[base..end]);
    assert p[..base] + p[base..end] == p[..end];
  }

  lemma NoWords()
    ensures Words([]) == [] && LeValue([]) == 0
  {
  }

  // ----------------------------------------------------------------------- the dumper

  /** The file as its bytes, a position, and whether a read has met the end. */
  class Dumper {
    var file: seq<Byte>
    var pos: nat
    var eof: bool

    ghost predicate Valid()
      reads this
    {
      pos <= |file| && (eof ==> pos == |file|)
    }

    constructor ()
      ensures Valid() && file == [] && pos == 0 && !eof
    {
      file, pos, eof := [], 0, false;
    }

    /** Dumper::add, byte by byte at the end. */
    method Add(op: Operation)
      requires op.Valid() && op.dataSize <= 8
      modifies this`file
      ensures file == old(file) + Encode(op.Value())
    {
      var bs := op.GetBinary();
      ghost var before := file;
      for i := 0 to |bs|
        invariant file == before + bs[..i]
      {
        file := file + [bs[i]];
      }
    }

    /** file.get: the position stays where it is when there is nothing to get. */
    method TakeByte()
      requires Valid()
      modifies this`pos, this`eof
      ensures Valid() && pos == (if old(pos) < |file| then old(pos) + 1 else old(pos)) && eof == (old(pos) == |file|)
    {
      if pos < |file| {
        pos := pos + 1;
      } else {
        eof := true;
      }
    }

    /** Takes a byte and seeks back: there is a record left to decode, or a byte no record
        begins with, and nothing has moved. */
    method HasNext() returns (more: bool)
      requires Valid()
      modifies this`pos, this`eof
      ensures Valid() && pos == old(pos) && eof == !more
      ensures more <==> DecodeAll(file[pos..]) != All([])
    {
      hide Decode, DecodeAll;
      ghost var rest := file[pos..];
      EmptyDecodes();
      if rest != [] { DecodeStep(rest); }
      var ptr := pos;
      TakeByte();
      if eof {
        more := false;
      } else {
        pos := ptr;
        more := true;
      }
    }

    /** file.read of one byte: past the end it leaves the last byte where it was. */
    method ReadByte(last: Byte) returns (b: Byte)
      requires Valid()
      modifies this`pos, this`eof
      ensures Valid()
      ensures b == (if old(pos) < |file| then file[old(pos)] else last)
      ensures pos == if old(pos) < |file| then old(pos) + 1 else old(pos)
    {
      b := last;
      if pos < |file| {
        b := file[pos];
      }
      TakeByte();
    }

    /** The next n bytes, the k-th of the record having been read last. */
    method ReadSpan(ghost from: nat, ghost k: nat, last: Byte, n: nat) returns (bs: seq<Byte>, b: Byte)
      requires Valid() && from < |file| && pos == Clip(from + k + 1) && last == ByteAt(file[from..], k)
      modifies this`pos, this`eof
      ensures Valid() && bs == Span(file[from..], k + 1, n) && b == ByteAt(file[from..], k + n) && pos == Clip(from + k + n + 1)
    {
      bs, b := [], last;
      for i := 0 to n
        invariant Valid() && bs == Span(file[from..], k + 1, i) && b == ByteAt(file[from..], k + i) && pos == Clip(from + k + i + 1)
      {
        b := ReadByte(b);
        SpanNext(file[from..], k + 1, i);
        bs := bs + [b];
      }
    }

    /** Dumper::get; not ok where the program exits on an unknown number. */
    method Get() returns (ok: bool, op: Operation)
      requires Valid() && pos < |file|
      modifies this`pos, this`eof
      ensures Valid() && fresh(op)
      ensures match Decode(old(file[pos..]))
              case Invalid => !ok
              case Record(v, used) => ok && op.Value() == v && pos == Clip(old(pos) + used)
    {
      hide FromHeader, LeValue, Words;
      ghost var from := pos;
      var b := ReadByte(0);
      assert b == ByteAt(file[from..], 0) && pos == Clip(from + 0 + 1);
      op := new Operation();
      ok := KindOf(b) != Unknown;
      if KindOf(b) == LiveCache {
        GetLine(from, b, op);
      } else if ok {
        GetAccess(from, b, op);
      }
    }

    /** The rest of a live-cache record. */
    method GetLine(ghost from: nat, first: Byte, op: Operation)
      requires Valid() && from < |file| && pos == Clip(from + 1) && first == file[from] && op.Valid() && op.Value() == FRESH
      modifies this`pos, this`eof, op
      ensures Valid()
      ensures pos == Clip(from + 9)
      ensures op.Value() == FRESH.(opType := OPTYPE_LC, addr := Aligned(LeValue(Span(file[from..], 1, 8))))
    {
      hide LeValue, Aligned, Span;
      op.SetLiveCacheOp();
      assert first == ByteAt(file[from..], 0);
      var bytes, b := ReadSpan(from, 0, first, 8);
      WordFits(bytes);
      assert bytes[0..8] == bytes;
      var address := Operation.PullWord(bytes, 0);
      op.SetAddr(address);
    }

    /** The rest of a load's or a store's record. */
    method GetAccess(ghost from: nat, first: Byte, op: Operation)
      requires Valid() && from < |file| && pos == Clip(from + 1) && first == file[from] && op.Valid() && op.Value() == FRESH
      requires KindOf(first) == Load || KindOf(first) == Store
      modifies this`pos, this`eof, op
      ensures Valid()
      ensures Span(file[from..], 0, 20)[0] == first
      ensures var r := FromHeader(Span(file[from..], 0, 20));
        && op.Value() == r.(val := Stored(r.val, Span(file[from..], 20, r.dataSize)))
        && pos == Clip(from + (20 + r.dataSize))
    {
      hide FromHeader, LeValue, Words, CodeOf, Width, Pow256, LoadNum, StoreNum, Consistent, Put;
      assert first == ByteAt(file[from..], 0);
      var binary, b := ReadSpan(from, 0, first, 19);
      binary := [first] + binary;
      assert binary == Span(file[from..], 0, 20);
      FreshVal(binary);
      var size := op.SetFromBinary(binary);
      assert op.Value() == FromHeader(binary);
      var payload;
      payload, b := ReadSpan(from, 19, b, size);
      var data := WordsOf(payload);
      op.SetVal(data);
    }

    ghost function Clip(p: nat): nat
      reads this`file
    {
      if p <= |file| then p else |file|
    }
  }

  /** The reading loop: as long as there is a next record, get it. */
  method ReadBack(d: Dumper) returns (ok: bool, ops: seq<Operation>)
    requires d.Valid()
    modifies d`pos, d`eof
    ensures forall op | op in ops :: fresh(op)
    ensures match DecodeAll(old(d.file[d.pos..]))
            case Stopped => !ok
            case All(vs) => ok && |ops| == |vs| && forall i | 0 <= i < |ops| :: ops[i].Value() == vs[i]
  {
    hide Decode, DecodeAll;
    ghost var start := DecodeAll(d.file[d.pos..]);
    ghost var vs: seq<Op> := [];
    ok, ops := true, [];
    Prefixed([], start);
    var more := d.HasNext();
    while more
      invariant d.Valid() && d.file == old(d.file) && (more <==> DecodeAll(d.file[d.pos..]) != All([]))
      invariant forall op | op in ops :: fresh(op)
      invariant |ops| == |vs| && forall i | 0 <= i < |ops| :: ops[i].Value() == vs[i]
      invariant start == Prefix(vs, DecodeAll(d.file[d.pos..]))
      decreases |d.file| - d.pos
    {
      ghost var bs := d.file[d.pos..];
      EmptyDecodes();
      assert bs != [];
      DecodeStep(bs);
      ghost var p := d.pos;
      var op;
      ok, op := d.Get();
      if !ok { return; }
      ops := ops + [op];
      ghost var g := Decode(bs);
      assert d.file[d.pos..] == if g.used > |bs| then [] else bs[g.used..];
      Regrouped(vs, g.op, DecodeAll(d.file[d.pos..]));
      vs := vs + [g.op];
      more := d.HasNext();
    }
  }

  ghost function Prefix(vs: seq<Op>, r: Reading): Reading {
    match r case Stopped => Stopped case All(ops) => All(vs + ops)
  }

  lemma Prefixed(vs: seq<Op>, r: Reading)
    requires vs == []
    ensures Prefix(vs, r) == r
  {
  }

  lemma Regrouped(vs: seq<Op>, v: Op, r: Reading)
    ensures Prefix(vs, Prefix([v], r)) == Prefix(vs + [v], r)
  {
    if r.All? {
      assert vs + ([v] + r.ops) == vs + [v] + r.ops;
    }
  }

  /** One record off the front of a stream; a truncated one is the last. */
  lemma DecodeStep(bs: seq<Byte>)
    requires bs != []
    ensures match Decode(bs)
            case Invalid => DecodeAll(bs) == Stopped
            case Record(v, used) => used > 0 && DecodeAll(bs) == Prefix([v], DecodeAll(if used > |bs| then [] else bs[used..]))
  {
    hide FromHeader, LeValue, Stored;
  }

  lemma EmptyDecodes()
    ensures DecodeAll([]) == All([])
  {
  }

  lemma CodeOfLoad(code: nat)
    requires LoadNum(code) != 0
    ensures KindOf(LoadNum(code)) == Load && CodeOf(LoadNum(code)) == code
  {
  }

  lemma CodeOfStore(code: nat)
    requires StoreNum(code) != 0
    ensures KindOf(StoreNum(code)) == Store && CodeOf(StoreNum(code)) == code
  {
  }
}
