/** The binary trace record: an operation's fields, their encoding, and what a reader
    gets back. */
module TraceRecord {
  import opened Powers

  type Byte = x: int | 0 <= x < 256

  const WORD: nat := 0x1_0000_0000_0000_0000

  // ---------------------------------------------------------- operation numbers

  datatype Kind = Load | Store | LiveCache | Unknown

  /** getOpTypeByOpNum; the program exits on an unknown number. */
  function KindOf(n: nat): Kind {
    if n == 0 then LiveCache
    else if 1 <= n <= 10 || 21 <= n <= 30 then Load
    else if 41 <= n <= 47 || 61 <= n <= 68 then Store
    else Unknown
  }

  /** The map from operation numbers to operation codes. */
  function CodeOf(n: nat): (code: nat)
    requires KindOf(n) == Load || KindOf(n) == Store
    ensures code < 256
  {
    if 1 <= n <= 7 then n - 1
    else if 8 <= n <= 10 then 2 * n - 8
    else if 21 <= n <= 27 then n - 5
    else if 28 <= n <= 30 then 2 * n - 32
    else if 41 <= n <= 47 then 2 * n - 82
    else if n == 61 then 0xFF
    else 2 * n + 4
  }

  /** The map from load codes to numbers. */
  function LoadNum(code: nat): nat {
    if code <= 6 then code + 1
    else if code == 0x08 then 8 else if code == 0x0A then 9 else if code == 0x0C then 10
    else if 0x10 <= code <= 0x16 then code + 5
    else if code == 0x18 then 28 else if code == 0x1A then 29 else if code == 0x1C then 30
    else 0
  }

  /** The map from store codes to numbers. */
  function StoreNum(code: nat): nat {
    if code % 2 == 0 && code <= 0x0C then 41 + code / 2
    else if code == 0xFF then 61
    else if code % 2 == 0 && 0x80 <= code <= 0x8C then 62 + (code - 0x80) / 2
    else 0
  }

  /** Codes are ambiguous between loads and stores, but not within either. */
  lemma NumOfCode(n: nat)
    ensures KindOf(n) == Load ==> LoadNum(CodeOf(n)) == n
    ensures KindOf(n) == Store ==> StoreNum(CodeOf(n)) == n
  {
  }

  /** The bytes a load of this number reads, or a store writes. */
  function Width(n: nat): nat {
    match n
    case 1 | 2 | 21 | 22 | 41 | 62 => 1
    case 3 | 4 | 23 | 24 | 42 | 63 => 2
    case 5 | 6 | 25 | 26 | 43 | 64 => 4
    case 7 | 27 | 44 | 65 => 8
    case 8 | 28 | 45 | 66 => 16
    case 9 | 29 | 46 | 67 => 32
    case 10 | 30 | 47 | 68 => 64
    case _ => 0
  }

  /** Bits 1 to 3 of a code hold the logarithm of the width; only the unlocking store
      of number 61 has none. */
  lemma WidthByCode(n: nat)
    requires KindOf(n) == Load || KindOf(n) == Store
    ensures Width(n) == if n == 61 then 0 else Pow2(CodeOf(n) % 16 / 2)
  {
    Doublings();
    hide Pow2;
  }

  lemma Doublings()
    ensures Pow2(0) == 1 && Pow2(1) == 2 && Pow2(2) == 4 && Pow2(3) == 8
    ensures Pow2(4) == 16 && Pow2(5) == 32 && Pow2(6) == 64
  {
    assert Pow2(3) == 8;
  }

  // ------------------------------------------------------------------- operations

  const OPTYPE_LOAD: nat := 1
  const OPTYPE_STORE: nat := 3
  const OPTYPE_LC: nat := 5

  /** The fields of an Operation. */
  datatype Op = Op(
    opCode: nat, pid: nat, delay: nat, pc: nat, addr: nat, val: seq<nat>,
    opNum: nat, opType: nat, dataSize: nat, ldData: bool)

  /** A new Operation; its number is the live cache's although its type is a load's. */
  const FRESH := Op(0, 0, 0, 0, 0, [0, 0, 0, 0, 0, 0, 0, 0], 0, OPTYPE_LOAD, 0, false)

  /** What every Operation satisfies, whatever setters were called. */
  predicate Consistent(op: Op) {
    && op.pid < 0x1_0000 && op.delay < 0x1_0000_0000 && op.pc < WORD && op.addr < WORD && op.addr % 8 == 0
    && |op.val| == 8 && (forall i | 0 <= i < 8 :: op.val[i] < WORD)
    && match KindOf(op.opNum)
       case LiveCache => true
       case Load => op.opType == OPTYPE_LOAD && op.opCode == CodeOf(op.opNum) && (op.dataSize == 0 || op.dataSize == Width(op.opNum))
       case Store => op.opType == OPTYPE_STORE && op.opCode == CodeOf(op.opNum) && op.dataSize == Width(op.opNum)
       case Unknown => false
  }

  /** A load's size is the one its need-data flag promises. */
  predicate WellFormed(op: Op) {
    KindOf(op.opNum) == Load ==> op.dataSize == if op.ldData then Width(op.opNum) else 0
  }

  function Pow256(n: nat): (p: nat)
    ensures p > 0
  {
    if n == 0 then 1 else 256 * Pow256(n - 1)
  }

  /** The first word of getVal, for sizes up to a word. */
  function Value(op: Op): nat
    requires |op.val| == 8
  {
    if op.dataSize == 0 then 0 else op.val[0] % Pow256(op.dataSize)
  }

  // -------------------------------------------------------------------- encoding

  /** The n low bytes of v, lowest first. */
  function LeBytes(v: nat, n: nat): (bs: seq<Byte>)
    ensures |bs| == n
  {
    if n == 0 then [] else [v % 256] + LeBytes(v / 256, n - 1)
  }

  function LeValue(bs: seq<Byte>): nat {
    if bs == [] then 0 else bs[0] + 256 * LeValue(bs[1..])
  }

  lemma {:induction false} LeRoundTrip(v: nat, n: nat)
    ensures LeValue(LeBytes(v, n)) == v % Pow256(n)
    decreases n
  {
    if n > 0 {
      LeRoundTrip(v / 256, n - 1);
      ModSplit(v, Pow256(n - 1));
      assert LeBytes(v, n)[1..] == LeBytes(v / 256, n - 1);
    }
  }

  lemma {:induction false} LeAt(v: nat, n: nat, i: nat)
    requires i < n
    ensures LeBytes(v, n)[i] == v / Pow256(i) % 256
    decreases i
  {
    if i > 0 {
      LeAt(v / 256, n - 1, i - 1);
      DivTwice(v, 256, Pow256(i - 1));
    }
  }

  lemma ModSplit(v: nat, p: nat)
    requires p > 0
    ensures v % 256 + 256 * (v / 256 % p) == v % (256 * p)
  {
    var q, r := v / 256 / p, v / 256 % p;
    assert v / 256 == q * p + r;
    assert v == q * (256 * p) + (256 * r + v % 256);
    DivModUnique(q, 256 * r + v % 256, 256 * p);
  }

  /** The masks ending in three zero bits, and the low bit. */
  function Aligned(a: nat): nat { a - a % 8 }
  predicate LowBit(a: nat) { a % 2 == 1 }

  /** The address word of the record. */
  function AddrWord(op: Op): nat { Aligned(op.addr) + if Flagged(op) then 1 else 0 }

  /** Whether the address's low bit is set in the record. */
  predicate Flagged(op: Op) { op.opType == OPTYPE_LOAD && op.ldData }

  function Pid1(op: Op): Byte { op.pid % 4096 / 16 }
  function PidDelay(op: Op): Byte { op.pid % 16 * 16 + op.delay % 4096 / 256 }

  /** The fixed part of a record. */
  function Header(op: Op): (bs: seq<Byte>)
    requires op.opNum < 256
    ensures |bs| == 20
  {
    [op.opNum, Pid1(op), PidDelay(op), op.delay % 256] + LeBytes(op.pc, 8)
    + LeBytes(AddrWord(op), 8)
  }

  /** getBinary. */
  function Encode(op: Op): (bs: seq<Byte>)
    requires op.opNum < 256 && |op.val| == 8 && op.dataSize <= 8
    ensures |bs| > 0
  {
    if op.opNum == 0 then [0] + LeBytes(Aligned(op.addr), 8)
    else Header(op) + LeBytes(Value(op), op.dataSize)
  }

  // -------------------------------------------------------------------- decoding

  function PidOf(b1: nat, b2: nat): nat { (b1 * 16 + b2 / 16) % 4096 }
  function DelayOf(b2: nat, b3: nat): nat { b2 % 16 * 256 + b3 }

  /** setFromBinary on a new Operation. */
  function FromHeader(bs: seq<Byte>): (op: Op)
    requires |bs| == 20 && (KindOf(bs[0]) == Load || KindOf(bs[0]) == Store)
  {
    var n := bs[0];
    var load := KindOf(n) == Load;
    var addr := LeValue(bs[12..]);
    var need := LowBit(addr);
    Op(CodeOf(n), PidOf(bs[1], bs[2]), DelayOf(bs[2], bs[3]), LeValue(bs[4..12]), Aligned(addr), FRESH.val,
       if load then LoadNum(CodeOf(n)) else StoreNum(CodeOf(n)), if load then OPTYPE_LOAD else OPTYPE_STORE,
       if load && !need then 0 else Width(n), need)
  }

  /** setFromBinary into an operation that held something: its value stays, and a store
      keeps the need-data flag it finds. */
  function Into(was: Op, bs: seq<Byte>): (op: Op)
    requires |bs| == 20 && (KindOf(bs[0]) == Load || KindOf(bs[0]) == Store)
  {
    var r := FromHeader(bs);
    r.(val := was.val, ldData := r.ldData || (KindOf(bs[0]) == Store && was.ldData))
  }

  datatype Got = Invalid | Record(op: Op, used: nat)

  /** Byte i of a stream; past the end a read leaves the last byte in place. */
  function ByteAt(bs: seq<Byte>, i: nat): Byte
    requires bs != []
  {
    if i < |bs| then bs[i] else bs[|bs| - 1]
  }

  function Span(bs: seq<Byte>, i: nat, n: nat): (r: seq<Byte>)
    requires bs != []
    ensures |r| == n && forall k | 0 <= k < n :: r[k] == ByteAt(bs, i + k)
  {
    seq<Byte>(n, k requires 0 <= k < n => ByteAt(bs, i + k))
  }

  /** Dumper::get: the operation at the front of the stream and the bytes it took. */
  function Decode(bs: seq<Byte>): Got
    requires bs != []
  {
    match KindOf(bs[0])
    case Unknown => Invalid
    case LiveCache =>
      var addr := LeValue(Span(bs, 1, 8));
      Record(FRESH.(opType := OPTYPE_LC, addr := Aligned(addr)), 9)
    case _ =>
      var op := FromHeader(Span(bs, 0, 20));
      Record(op.(val := Stored(op.val, Span(bs, 20, op.dataSize))), 20 + op.dataSize)
  }

  /** The words the payload bytes make, the last one maybe short. */
  function Words(payload: seq<Byte>): seq<nat> {
    if payload == [] then []
    else if |payload| <= 8 then [LeValue(payload)]
    else [LeValue(payload[..8])] + Words(payload[8..])
  }

  /** setVal: the words replace the first ones. */
  function Stored(val: seq<nat>, payload: seq<Byte>): (r: seq<nat>)
    requires |val| == 8
    ensures |r| == 8
  {
    Put(val, Words(payload))
  }

  function Put(val: seq<nat>, w: seq<nat>): (r: seq<nat>)
    requires |val| == 8
    ensures |r| == 8
  {
    if |w| <= 8 then w + val[|w|..] else w[..8]
  }

  // -------------------------------------------------------------- what is preserved

  /** What a record says: a live-cache line's address, or an access's fields up to the
      twelve bits kept of process and delay, and the value's bytes. */
  datatype Meaning =
    | Line(addr: nat)
    | Access(opCode: nat, opNum: nat, opType: nat, pid: nat, delay: nat, pc: nat, addr: nat, needsData: bool, value: nat)

  function MeaningOf(op: Op): Meaning
    requires |op.val| == 8
  {
    if op.opNum == 0 then Line(op.addr)
    else Access(op.opCode, op.opNum, op.opType, op.pid % 4096, op.delay % 4096, op.pc, op.addr, Flagged(op), Value(op))
  }

  lemma Pow256Eight()
    ensures Pow256(8) == WORD
  {
    assert Pow256(4) == 0x1_0000_0000;
  }

  lemma TwelveBits(op: Op)
    ensures PidOf(Pid1(op), PidDelay(op)) == op.pid % 4096
    ensures DelayOf(PidDelay(op), op.delay % 256) == op.delay % 4096
  {
    var p, d := op.pid, op.delay;
    var a, b := p % 16, d % 4096 / 256;
    DivModUnique(a, b, 16);
    DivModUnique(256 * (p / 4096) + p % 4096 / 16, p % 4096 % 16, 16);
    DivModUnique(16 * (d / 4096) + d % 4096 / 256, d % 4096 % 256, 256);
  }

  lemma AddrBack(op: Op)
    requires op.addr % 8 == 0 && op.addr < WORD
    ensures var a := AddrWord(op); a < WORD && Aligned(a) == op.addr && LowBit(a) == Flagged(op) && Aligned(op.addr) == op.addr
  {
    hide Flagged;
    var q := op.addr / 8;
    assert op.addr == q * 8 && q < 0x2000_0000_0000_0000;
    DivModUnique(q, 1, 8);
    assert LowBit(q * 8 + 1) && !LowBit(q * 8);
  }

  lemma WordBack(v: nat)
    requires v < WORD
    ensures LeValue(LeBytes(v, 8)) == v
  {
    LeRoundTrip(v, 8);
    Pow256Eight();
  }

  /** The parts of a header. */
  lemma HeaderParts(op: Op)
    requires op.opNum < 256
    ensures var h := Header(op);
      && h[0] == op.opNum && h[1] == Pid1(op) && h[2] == PidDelay(op) && h[3] == op.delay % 256
      && h[4..12] == LeBytes(op.pc, 8) && h[12..] == LeBytes(AddrWord(op), 8)
  {
    hide LeBytes, AddrWord, Pid1, PidDelay;
  }

  /** setFromBinary undoes the header, whatever the payload and the operation read into. */
  lemma HeaderRestores(op: Op, was: Op)
    requires Consistent(op) && op.opNum != 0
    ensures var r := Into(was, Header(op));
      && r.opCode == op.opCode && r.opNum == op.opNum && r.opType == op.opType
      && r.pid == op.pid % 4096 && r.delay == op.delay % 4096 && r.pc == op.pc && r.addr == op.addr
      && r.ldData == (Flagged(op) || (KindOf(op.opNum) == Store && was.ldData)) && r.val == was.val && r.dataSize == if KindOf(op.opNum) == Load && !op.ldData then 0 else Width(op.opNum)
  {
    hide LeBytes, LeValue, CodeOf, Width, Header, AddrWord, Pid1, PidDelay, PidOf, DelayOf, Aligned, LowBit, LoadNum, StoreNum;
    HeaderParts(op);
    WordBack(op.pc);
    AddrBack(op);
    WordBack(AddrWord(op));
    TwelveBits(op);
    NumOfCode(op.opNum);
  }

  /** The size setFromBinary returns is the payload's exactly for a well-formed operation:
      a load whose size does not match its flag breaks the framing. */
  lemma FramingExactly(op: Op)
    requires Consistent(op) && op.opNum != 0 && op.dataSize <= 8
    ensures FromHeader(Encode(op)[..20]).dataSize == |Encode(op)| - 20 <==> WellFormed(op)
  {
    hide FromHeader, Header;
    HeaderRestores(op, FRESH);
    assert Encode(op)[..20] == Header(op);
  }

  // -------------------------------------------------------------------- whole streams

  predicate Writable(op: Op) { Consistent(op) && WellFormed(op) && op.dataSize <= 8 }

  lemma SpanOf(bs: seq<Byte>, i: nat, n: nat)
    requires bs != [] && i + n <= |bs|
    ensures Span(bs, i, n) == bs[i..i + n]
  {
  }

  /** The value's bytes come back, and nothing but them counts. */
  lemma PayloadBack(op: Op)
    requires Consistent(op) && op.dataSize <= 8
    ensures var r := FRESH.(dataSize := op.dataSize, val := Stored(FRESH.val, LeBytes(Value(op), op.dataSize)));
            Value(r) == Value(op)
  {
    var n, v := op.dataSize, Value(op);
    LeRoundTrip(v, n);
    var bs := LeBytes(v, n);
    if n > 0 {
      assert Words(bs) == [LeValue(bs)];
      ModTwice(op.val[0], Pow256(n));
    }
  }

  lemma ModTwice(x: nat, p: nat)
    requires p > 0
    ensures x % p % p == x % p
  {
    DivModUnique(0, x % p, p);
  }

  lemma EncodeParts(op: Op, rest: seq<Byte>)
    requires Writable(op) && op.opNum != 0
    ensures var bs := Encode(op) + rest; var n := op.dataSize;
      && |Encode(op)| == 20 + n && bs[0] == op.opNum && Span(bs, 0, 20) == Header(op) && Span(bs, 20, n) == LeBytes(Value(op), n)
      && Encode(op) + rest == Header(op) + LeBytes(Value(op), n) + rest
  {
    hide LeBytes, Header, Value;
    var bs, n := Encode(op) + rest, op.dataSize;
    SpanOf(bs, 0, 20);
    SpanOf(bs, 20, n);
    assert bs[0..20] == Header(op) && bs[20..20 + n] == LeBytes(Value(op), n);
    HeaderParts(op);
    assert bs[0] == Header(op)[0];
  }

  /** Reading what was written, whatever follows it, takes exactly its bytes and gives
      the same meaning. */
  lemma RecordRoundTrip(op: Op, rest: seq<Byte>)
    requires Writable(op)
    ensures var g := Decode(Encode(op) + rest);
      && g.Record? && g.used == |Encode(op)| && |g.op.val| == 8 && MeaningOf(g.op) == MeaningOf(op)
  {
    if op.opNum == 0 {
      LineRoundTrip(op, rest);
    } else {
      AccessRoundTrip(op, rest);
    }
  }

  lemma LineRoundTrip(op: Op, rest: seq<Byte>)
    requires Writable(op) && op.opNum == 0
    ensures var g := Decode(Encode(op) + rest);
      && g.Record? && g.used == |Encode(op)| && |g.op.val| == 8 && MeaningOf(g.op) == MeaningOf(op)
  {
    hide LeBytes, LeValue, Aligned;
    var bs := Encode(op) + rest;
    AddrBack(op);
    SpanOf(bs, 1, 8);
    assert bs[1..9] == LeBytes(op.addr, 8);
    WordBack(op.addr);
    assert bs[0] == 0;
  }

  lemma AccessRoundTrip(op: Op, rest: seq<Byte>)
    requires Writable(op) && op.opNum != 0
    ensures var g := Decode(Encode(op) + rest);
      && g.Record? && g.used == |Encode(op)| && |g.op.val| == 8 && MeaningOf(g.op) == MeaningOf(op)
  {
    hide LeBytes, LeValue, Header, Encode, FromHeader, Stored, CodeOf, Width, Value;
    EncodeParts(op, rest);
    HeaderRestores(op, FRESH);
    PayloadBack(op);
    var r := FromHeader(Header(op));
    FreshVal(Header(op));
    assert r.dataSize == op.dataSize;
    ValueOf(r.(val := Stored(FRESH.val, LeBytes(Value(op), op.dataSize))), FRESH.(dataSize := op.dataSize, val := Stored(FRESH.val, LeBytes(Value(op), op.dataSize))));
  }

  lemma FreshVal(bs: seq<Byte>)
    requires |bs| == 20 && (KindOf(bs[0]) == Load || KindOf(bs[0]) == Store)
    ensures FromHeader(bs).val == FRESH.val
  {
  }

  lemma ValueOf(a: Op, b: Op)
    requires a.val == b.val && |a.val| == 8 && a.dataSize == b.dataSize
    ensures Value(a) == Value(b)
  {
  }

  function EncodeAll(ops: seq<Op>): seq<Byte>
    requires forall i | 0 <= i < |ops| :: Writable(ops[i])
  {
    if ops == [] then []
    else
      assert Writable(ops[0]);
      Encode(ops[0]) + EncodeAll(ops[1..])
  }

  /** Reading until the bytes run out; None where the program would exit. */
  datatype Reading = Stopped | All(ops: seq<Op>)

  function DecodeAll(bs: seq<Byte>): Reading
    decreases |bs|
  {
    if bs == [] then All([])
    else
      match Decode(bs)
      case Invalid => Stopped
      case Record(op, used) =>
        if used == 0 || used > |bs| then All([op])
        else
          match DecodeAll(bs[used..])
          case Stopped => Stopped
          case All(ops) => All([op] + ops)
  }

  ghost predicate SameMeaning(a: seq<Op>, b: seq<Op>) {
    |a| == |b| && forall i | 0 <= i < |a| :: |a[i].val| == |b[i].val| == 8 && MeaningOf(a[i]) == MeaningOf(b[i])
  }

  /** Records delimit themselves: a whole stream reads back as the list written. */
  lemma {:induction false} StreamRoundTrip(ops: seq<Op>)
    requires forall i | 0 <= i < |ops| :: Writable(ops[i])
    ensures var g := DecodeAll(EncodeAll(ops)); g.All? && SameMeaning(g.ops, ops)
    decreases |ops|
  {
    hide Decode, Encode, MeaningOf;
    if ops != [] {
      assert Writable(ops[0]);
      var rest := EncodeAll(ops[1..]);
      RecordRoundTrip(ops[0], rest);
      var bs := Encode(ops[0]) + rest;
      assert bs[|Encode(ops[0])|..] == rest;
      StreamRoundTrip(ops[1..]);
    }
  }
}
